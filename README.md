# SnapdragonCamera core, modelled in Dafny

This project models the integer and byte-level logic of the SnapdragonCamera
Android application and proves properties of it. One Dafny module stands for
each source file of the core:

- **NV21 buffers** (`jni/image_util_jni.cpp`): rotate-and-merge, NV21 to RGBA,
  the in-place vertical and horizontal flips, the plane split and the box-filter
  downscale. Each is a method over `array<byte>`, proved against a function on
  sequences (`Nv21`, `Nv21Rotate`, `Nv21Rgb`, `Nv21Flip`, `Nv21Split`,
  `Nv21Resize`, with `Grid` and `Plane` for the index arithmetic). The function
  then carries the round trips: flipping twice, four quarter turns, two half
  turns.
- **The RenderScript rotate kernel** (`rs/rotator.rs`): one kernel run per pixel
  as a list of writes, and the launch over all pixels (`Rotator`).
- **Camera utilities** (`CameraUtil.java`): orientation rounding with
  hysteresis, powers of two, sample-size rounding, the time string, the flip-mode
  string, the preview fps choice and the file namer (`CameraUtil`, `Text`).
- **The MPO writer** (`mpo/*`): MP entries and tags (`MpoTag`, `MpoEntries`), the
  IFD tag map in the iteration order of a 16-bucket Java `HashMap`, with its
  serialisation (`MpoIfd`, `MpoIfdBytes`, `MpoIfdLayout`), the per-image IFD
  pair and its offsets (`MpoImage`), the picture set (`MpoData`), and the
  stream state machine that puts the MP segment into each JPEG (`MpoStream`,
  `MpoOutput` and the proofs about them).
- **Queues and lists**: the ZSL ring buffer with timestamp matching
  (`ZslQueue`), the post-processor's fall-off list and ROI scaling
  (`PostProcessor`), the `NamedImages` queue (`PhotoModule`) and the
  best-picture selection (`Bestpicture`).
- **Binary record parsers**: the crop, rotation and reprocess records of the
  depth engine (`DdmEngine`), the calibration records and image lists of the
  ClearSight engine (`ClearSight`), and the depth-map trailer and histogram of
  the refocus viewer (`Refocus`).
- **Rules and conversions**: the panorama view's RGB to NV21 conversion and
  blending placement (`PanoView`), the wide-angle panorama's preview-size choice
  and orientation (`WidePano`), the photo and video modules' quality, size,
  bit-rate, duration and flip rules (`PhotoModule`, `VideoModule`), the
  preference migrations and filters (`CameraSettings`), the settings dependency
  engine with its exposure and ISO lists (`SettingsManager`), the two-way
  encoder tables (`SettingTranslation`) and the persisted properties
  (`PersistUtil`).

Android objects (`Image`, `ListPreference`, `SharedPreferences`, JSON
objects, `Bitmap`) are plain values: maps, sequences and datatypes. Java `int`
arithmetic is written out where it wraps (`Bytes.Int32`), and Java's
truncating division and remainder are `Bytes.JavaDiv` and `Bytes.JavaRem`.
Objects whose fields the source updates in place are classes, for example the
ZSL queue, the MPO stream, the IFD map, the settings manager, the depth and
ClearSight engines and the two-way map. Their methods state the whole new
state.

Helper modules (`Arith`, `Bytes`, `Buffers`, `Chunks`, `Plane`, `Grid`,
`Text`) hold arithmetic, big- and little-endian integers, string splitting and
decimal conversion.

VideoModule's `millisecondToTimeString` (VideoModule.java:2113-2157) is a copy
of CameraUtil's, and `CameraUtil.MillisecondToTimeString` models both.

## Model

| member | source | states |
|---|---|---|
| Nv21.NV21SizeEven | jni/image_util_jni.cpp:70-108 | for even sides the chroma plane starts at w*h and the frame has w*h*3/2 bytes, half-width by half-height (V,U) pairs |
| Nv21.PlaneBytes | jni/image_util_jni.cpp:70-79 | a frame is its luma plane followed by its chroma plane read as (V,U) pairs |
| Nv21.RotatedPlanes | jni/image_util_jni.cpp:59-119 | the rotated frame's luma plane is the luma plane rotated pixel by pixel, and its chroma plane is the chroma pair grid rotated by the same angle |
| Nv21.RotatedLumaByte | jni/image_util_jni.cpp:61-69 | every luma byte of the rotated frame comes from the rotated luma grid |
| Nv21.RotatedChromaBytes | jni/image_util_jni.cpp:70-79 | a chroma pair moves as a whole: V and U of the source pair land together, V first |
| Nv21.Rotate90Chroma | jni/image_util_jni.cpp:70-79 | at 90 degrees the pair at (cx,cy) lands at pair index cx*ch+(ch-1-cy) |
| Nv21.Rotate270Chroma | jni/image_util_jni.cpp:89-98 | at 270 degrees the pair at (cx,cy) lands at pair index (cw-1-cx)*ch+cy |
| Nv21.Rotate180Chroma | jni/image_util_jni.cpp:108-117 | at 180 degrees the pair at (cx,cy) lands at pair index (ch-1-cy)*cw+(cw-1-cx) |
| Nv21.Rotate180TwiceNV21 | jni/image_util_jni.cpp:99-117 | turning a frame by 180 degrees twice restores all w*h*3/2 bytes |
| Nv21.Rotate90Then270NV21 | jni/image_util_jni.cpp:61-98 | a 90-degree turn followed by a 270-degree turn of the h-by-w result restores the frame |
| Nv21.Rotate90TwiceNV21 | jni/image_util_jni.cpp:61-117 | two 90-degree turns equal one 180-degree turn |
| Nv21.FourQuarterTurnsNV21 | jni/image_util_jni.cpp:61-79 | four 90-degree turns restore the frame |
| Grid.Rotate90At | jni/image_util_jni.cpp:61-69 | at 90 degrees out[x*h+(h-1-y)] == in[y*w+x] for every pixel |
| Grid.Rotate270At | jni/image_util_jni.cpp:80-88 | at 270 degrees out[(w-1-x)*h+y] == in[y*w+x] for every pixel |
| Grid.Rotate180At | jni/image_util_jni.cpp:99-107 | at 180 degrees out[(h-1-y)*w+(w-1-x)] == in[y*w+x] for every pixel |
| Grid.Rotate180Twice | jni/image_util_jni.cpp:99-107 | the 180-degree grid turn is an involution |
| Grid.Rotate90Then270 | jni/image_util_jni.cpp:61-88 | the 270-degree turn undoes the 90-degree turn |
| Grid.Rotate270Then90 | jni/image_util_jni.cpp:61-88 | the 90-degree turn undoes the 270-degree turn |
| Grid.Rotate90Twice | jni/image_util_jni.cpp:61-107 | two 90-degree grid turns equal one 180-degree turn |
| Grid.FourQuarterTurns | jni/image_util_jni.cpp:61-69 | four 90-degree grid turns are the identity |
| Nv21Rotate.LumaColumn90 | jni/image_util_jni.cpp:64-68 | one pass of the inner loop writes source column x bottom to top into h consecutive bytes and nothing else |
| Nv21Rotate.LumaColumn270 | jni/image_util_jni.cpp:83-87 | one pass of the inner loop writes source column x top to bottom into h consecutive bytes and nothing else |
| Nv21Rotate.LumaRow180 | jni/image_util_jni.cpp:102-106 | one pass of the inner loop writes source row y reversed into w consecutive bytes and nothing else |
| Nv21Rotate.Luma90 | jni/image_util_jni.cpp:61-69 | out[0..w*h) is the 90-degree turn of the luma plane; nothing else is written |
| Nv21Rotate.Luma270 | jni/image_util_jni.cpp:80-88 | out[0..w*h) is the 270-degree turn of the luma plane; nothing else is written |
| Nv21Rotate.Luma180 | jni/image_util_jni.cpp:99-107 | out[0..w*h) is the 180-degree turn of the luma plane; nothing else is written |
| Nv21Rotate.ChromaColumn90 | jni/image_util_jni.cpp:72-78 | one inner pass writes one column of (V,U) pairs, both bytes together, at their 90-degree places |
| Nv21Rotate.ChromaColumn270 | jni/image_util_jni.cpp:91-97 | one inner pass writes one column of (V,U) pairs at their 270-degree places |
| Nv21Rotate.ChromaRow180 | jni/image_util_jni.cpp:110-116 | one inner pass writes one row of (V,U) pairs at their 180-degree places |
| Nv21Rotate.Chroma90 | jni/image_util_jni.cpp:70-79 | from offset w*h, (w/2)*(h/2) pairs are written: the 90-degree turn of the pair grid |
| Nv21Rotate.Chroma270 | jni/image_util_jni.cpp:89-98 | from offset w*h, the 270-degree turn of the pair grid |
| Nv21Rotate.Chroma180 | jni/image_util_jni.cpp:108-117 | from offset w*h, the 180-degree turn of the pair grid |
| Nv21Rotate.RotateFrame | jni/image_util_jni.cpp:59-119 | for a right angle the first w*h*3/2 bytes of out are the rotated frame and the rest of out is untouched |
| Nv21Rotate.RotateBufAndMerge | jni/image_util_jni.cpp:59-119 | for 90, 180 or 270 degrees out[..w*h*3/2] is the rotated frame; for any other degree nothing is written; bytes past the frame never change |
| Nv21Rgb.Clamp255 | jni/image_util_jni.cpp:149-151 | a channel is the value itself inside [0,255], 255 above, 0 below |
| Nv21Rgb.PixelRgb | jni/image_util_jni.cpp:142-151 | R, G and B of pixel (x,y) are the channels of Channel, read from its luma byte and the (V,U) pair at w*h + x/2*2 + (y/2)*w; with neutral chroma (both bytes 128) the pixel is grey, R == G == B |
| Nv21Rgb.RgbaAt | jni/image_util_jni.cpp:152-155 | byte (y*w+x)*4+c of the result is channel c of pixel (x,y) |
| Nv21Rgb.RgbaKeepsTail | jni/image_util_jni.cpp:140-157 | bytes of the RGBA buffer past 4*w*h are not changed |
| Nv21Rgb.AlphaOpaque | jni/image_util_jni.cpp:152 | the alpha channel of every pixel is 255 |
| Nv21Rgb.BlockSharesChroma | jni/image_util_jni.cpp:143-145 | the four pixels of a 2x2 block read the same (V,U) pair, so equal luma gives equal colour |
| Nv21Rgb.NeutralChromaIsGrey | jni/image_util_jni.cpp:146-151 | with V = U = 128 the three colour channels are equal, each clamp(1.164*Y) |
| Nv21Rgb.LumaExtremes | jni/image_util_jni.cpp:146-151 | on neutral chroma, luma 0 gives black and luma of 220 or more saturates at 255 |
| Nv21Rgb.NV21ToRgb | jni/image_util_jni.cpp:132-159 | the RGBA buffer becomes Rgba of its old contents: all w*h pixels converted, everything past them kept |
| Nv21Flip.FlipRowsAt | jni/image_util_jni.cpp:170-176 | a vertical flip puts row R-1-y of a plane at row y, across the full stride |
| Nv21Flip.FlipRowsTwice | jni/image_util_jni.cpp:170-186 | flipping the rows of a plane twice is the identity |
| Nv21Flip.FlipRowsCommute | jni/image_util_jni.cpp:169-186 | flipping the luma plane and flipping the chroma plane are independent and may be done in either order |
| Nv21Flip.MirrorRowsTwice | jni/image_util_jni.cpp:189-195 | mirroring the first width columns of every row twice is the identity |
| Nv21Flip.MirrorPairsTwice | jni/image_util_jni.cpp:196-205 | mirroring (V,U) pairs twice is the identity |
| Nv21Flip.MirrorUpToAt | jni/image_util_jni.cpp:189-195 | after x passes of the horizontal luma loop, columns c < x and width-x <= c < width hold column width-1-c, the others are unchanged |
| Nv21Flip.MirrorPairsUpToAt | jni/image_util_jni.cpp:196-205 | after x passes of the horizontal chroma loop, the swapped columns hold their pair partner width-2-x (V) or width-1-x (U), keeping V before U |
| Nv21Flip.VerticalFlipTwice | jni/image_util_jni.cpp:169-186 | the vertical NV21 flip is an involution |
| Nv21Flip.HorizontalFlipTwice | jni/image_util_jni.cpp:187-206 | the horizontal NV21 flip is an involution |
| Nv21Flip.HorizontalFlipKeepsGap | jni/image_util_jni.cpp:188-205 | the horizontal flip never touches the stride padding, columns width <= x < stride, in either plane |
| Nv21Flip.FlipColumn | jni/image_util_jni.cpp:171-175 | the inner vertical loop swaps the top and bottom halves of one luma column |
| Nv21Flip.FlipLumaVertical | jni/image_util_jni.cpp:170-176 | the luma plane becomes its row flip |
| Nv21Flip.FlipPairColumn | jni/image_util_jni.cpp:178-185 | the inner vertical chroma loop swaps one column of (V,U) pairs between pair rows y and h/2-1-y |
| Nv21Flip.FlipChromaVertical | jni/image_util_jni.cpp:177-186 | the chroma plane becomes its row flip over height/2 pair rows |
| Nv21Flip.SwapColumns | jni/image_util_jni.cpp:190-194 | the inner horizontal loop swaps luma columns x and width-1-x in every row |
| Nv21Flip.FlipLumaHorizontal | jni/image_util_jni.cpp:189-195 | the luma plane becomes its mirror over the first width columns |
| Nv21Flip.SwapPairColumns | jni/image_util_jni.cpp:197-204 | the inner horizontal chroma loop swaps pair x with pair width-2-x in every pair row |
| Nv21Flip.FlipChromaHorizontal | jni/image_util_jni.cpp:196-205 | the chroma plane becomes its pair mirror |
| Nv21Flip.FlipNV21 | jni/image_util_jni.cpp:161-210 | the buffer becomes VerticalFlip or HorizontalFlip (width = stride-gap) of its old contents, as isVertical selects |
| Nv21Split.CopiedRowsAt | jni/image_util_jni.cpp:219-226 | destination byte j*dstStride+i is source byte base+j*srcStride+i for i < width and j < rows; every other destination byte is unchanged |
| Nv21Split.CopiedRowsTwice | jni/image_util_jni.cpp:219-226 | splitting into the same destination twice gives the same result as once |
| Nv21Split.Split | jni/image_util_jni.cpp:212-230 | yBuf gets height rows of width luma bytes and vuBuf gets height/2 rows of chroma bytes from offset srcStride*height; nothing else in either destination changes |
| Nv21Resize.AdjustedWidth | jni/image_util_jni.cpp:236-240 | equal aspects keep oldWidth; otherwise the adjusted width is the floor of newWidth/newHeight*oldHeight |
| Nv21Resize.BiasedRatio | jni/image_util_jni.cpp:242-250 | R = min(wR,hR) after the 25 % remainder bias: at most one more than either quotient and at least one of them |
| Nv21Resize.FittedRatio | jni/image_util_jni.cpp:242-252 | the ratio used is the source ratio capped so that newWidth*R and newHeight*R fit the old frame, and it is the largest such value not above the source ratio |
| Nv21Resize.SameSizeRatio | jni/image_util_jni.cpp:242-250 | when the new dimensions equal the old ones the ratio is 1 |
| Nv21Resize.FittedAgrees | jni/image_util_jni.cpp:242-252 | whenever the source ratio fits, the capped ratio equals it |
| Nv21Resize.WiderAspectReadsBeforeFrame | jni/image_util_jni.cpp:236-261 | for Dims(400,300,400,200,100) the source ratio 3 does not fit and the first luma read is at index -100 |
| Nv21Resize.ZeroRatioIsUpscale | jni/image_util_jni.cpp:242-252 | the ratio is 0 exactly for an upscale in some direction or a zero source ratio |
| Nv21Resize.ZeroRatioWritesNothing | jni/image_util_jni.cpp:256-288 | with ratio 0 no output byte is written |
| Nv21Resize.LumaWindowInside | jni/image_util_jni.cpp:251-261 | every R-by-R luma block, starting at the centred crop offset wC/2, hC/2, lies inside the old frame |
| Nv21Resize.ChromaWindowInside | jni/image_util_jni.cpp:269-279 | every chroma block lies inside the old chroma plane |
| Nv21Resize.FittedReadsInside | jni/image_util_jni.cpp:261 | every luma read index (j+y)*oldStride+i+x is a cell of the old frame |
| Nv21Resize.BlockSumBound | jni/image_util_jni.cpp:258-263 | an R-by-R sum of bytes is at most 255*R*R |
| Nv21Resize.Mean | jni/image_util_jni.cpp:264-265 | the stored value is the floor of the block mean: b*R*R <= sum < (b+1)*R*R |
| Nv21Resize.LumaOut | jni/image_util_jni.cpp:255-268 | output luma byte p*newWidth+q is the mean of block (p,q) |
| Nv21Resize.ChromaOut | jni/image_util_jni.cpp:269-288 | output V and U bytes of pair (p2,q2) are the means of their chroma blocks, written from newWidth*newHeight on |
| Nv21Resize.MeanOfUniform | jni/image_util_jni.cpp:264 | the mean of R*R equal bytes is that byte |
| Nv21Resize.UniformLumaMean | jni/image_util_jni.cpp:256-268 | a uniform luma plane downscales to the same value |
| Nv21Resize.UniformLumaStays | jni/image_util_jni.cpp:256-268 | every output luma byte of a uniform old plane equals that value |
| Nv21Resize.SameSizeCopiesLuma | jni/image_util_jni.cpp:256-268 | with equal dimensions each luma mean is the source pixel |
| Nv21Resize.SameSizeCopiesChroma | jni/image_util_jni.cpp:271-288 | with equal dimensions each chroma mean is the source chroma byte |
| Nv21Resize.SameSizeCopies | jni/image_util_jni.cpp:242-292 | with equal dimensions the output is the input with the stride padding removed, in both planes |
| Nv21Resize.ResizedAt | jni/image_util_jni.cpp:255-288 | each of the NewSize output bytes is the mean its position calls for |
| Nv21Resize.LumaBlockSum | jni/image_util_jni.cpp:258-263 | the two inner loops add up the R-by-R luma block at (j,i) |
| Nv21Resize.ChromaBlockSums | jni/image_util_jni.cpp:273-280 | the two inner loops add up the V and the U bytes of the R-by-R pair block |
| Nv21Resize.LumaValue | jni/image_util_jni.cpp:258-265 | the value stored for block (p,q) is its mean |
| Nv21Resize.ChromaValues | jni/image_util_jni.cpp:273-285 | the V and U stored for pair block (p2,q2) are their means |
| Nv21Resize.LumaPass | jni/image_util_jni.cpp:255-268 | the luma loops write bytes 0..newWidth*newHeight in order and nothing else |
| Nv21Resize.ChromaPass | jni/image_util_jni.cpp:269-288 | the chroma loops write the rest of the new frame in order |
| Nv21Resize.ResizeImage | jni/image_util_jni.cpp:232-293 | returns the fitted ratio and leaves the new buffer equal to Resized of its old contents |
| Rotator.LumaTarget | rs/rotator.rs:43-57 | the luma byte of a stored pixel goes inside the luma plane: (width-1-x-pad)*height+height-1-y at 180, x*height+height-1-y at 90, (width-1-x-pad)*height+y at 270, x*height+y at 0 |
| Rotator.ChromaSource | rs/rotator.rs:60-64 | for even x and y the V byte is read at width*height + x + (y/2)*width, the start of pair (x/2, y/2), and U at the next byte |
| Rotator.VTarget | rs/rotator.rs:65-83 | the V byte of an even pixel is written at an even offset of the chroma plane, with room for U after it |
| Rotator.SourceUTarget | rs/rotator.rs:68-81 | as written, U goes one byte after V at 90 and 180 degrees but one byte before V at 0 and 270 degrees |
| Rotator.PixelWrites | rs/rotator.rs:40-86 | a run makes no write for a skipped pixel, three writes (luma, U, V) for an even pixel and one write otherwise, all inside the frame |
| Rotator.SourceWrites | rs/rotator.rs:40-86 | the writes of one run as the kernel is written, all inside the frame |
| Rotator.Writes | rs/rotator.rs:40-86 | the writes of one run with U placed after V for every degree, all inside the frame |
| Rotator.PaddingStoresNothing | rs/rotator.rs:44-55 | at 0, 180 and 270 degrees a pixel with x >= width-pad makes no write, and an unknown degree makes none at all |
| Rotator.Degree90Writes | rs/rotator.rs:47-72 | at 90 degrees luma in[x+y*width] goes to x*height+height-1-y, U to ySize+(x/2)*height+height-1-y and V one byte before |
| Rotator.SourceUBeforeV | rs/rotator.rs:76-82 | at 0 and 270 degrees the written U lands one byte before V, so the pair is stored as (U,V) and starts at an odd chroma offset |
| Rotator.SourceUOverwritesLuma | rs/rotator.rs:78-82 | on a 4x2 frame at 0 degrees the U of pixel (0,0) is written at offset 7, inside the luma plane, where pixel (3,1)'s luma byte also goes |
| Rotator.CorrectedUAfterV | rs/rotator.rs:65-83 | with the correction every pair is stored as (V,U) at an even chroma offset, V from the source pair's V byte and U from its U byte |
| Rotator.WritesRead | rs/rotator.rs:41-64 | a run reads only its own luma byte and the chroma plane |
| Rotator.ApplyAgrees | rs/rotator.rs:40-86 | after a list of stores that all agree with a frame R, each targeted offset holds R's byte and every other offset is unchanged |
| Rotator.Kernel | rs/rotator.rs:40-86 | one run returns 0 and leaves gOut equal to its old contents with the run's writes applied in order |
| Rotator.RunPixel | rs/rotator.rs:40-85 | one more run in launch order: its writes are added to gOut and its result 0 is stored in its own luma cell of the input allocation |
| Rotator.Launch | rs/rotator.rs:40-86 | after one run per pixel in row-major order gOut holds all runs' writes applied in that order, and the input's luma cells are 0 |
| Rotator.LaunchHas | rs/rotator.rs:40-86 | every write of every earlier run is among the launch's writes |
| Rotator.Targets90 | rs/rotator.rs:47-48 | at 90 degrees luma (x,y) goes to row x, column height-1-y of the rotated plane |
| Rotator.Targets270 | rs/rotator.rs:49-52 | at 270 degrees with no padding luma (x,y) goes to (width-1-x)*height+y |
| Rotator.Pair90 | rs/rotator.rs:70-72 | at 90 degrees pair (cx,cy) is stored at pair index cx*(height/2)+(height/2-1-cy) |
| Rotator.Pair270 | rs/rotator.rs:73-77 | at 270 degrees with no padding pair (cx,cy) is stored at pair index (width/2-1-cx)*(height/2)+cy |
| Rotator.LaunchAgrees | rs/rotator.rs:40-86 | at 90 degrees, and at 270 degrees without padding, every write of the launch stores the byte the rotated frame holds there |
| Rotator.LumaCovered | rs/rotator.rs:47-52 | at those degrees every luma offset of the output is written |
| Rotator.ChromaCovered | rs/rotator.rs:70-77 | at those degrees every chroma offset of the output is written |
| Rotator.LaunchRotates | rs/rotator.rs:40-86 | at 90 degrees, and at 270 degrees without padding, the launch turns gOut's frame into the rotated NV21 frame of the input (the same frame rotateBufAndMerge builds) and keeps the bytes after it |
| CameraUtil.RoundOrientation | src/com/android/camera/util/CameraUtil.java:503-516 | a known history within 45 + hysteresis (50) degrees, measured round the circle, is kept; otherwise an orientation in [0,359] rounds to the nearest of 0, 90, 180, 270, at most 45 degrees away |
| CameraUtil.QuadrantOf | src/com/android/camera/util/CameraUtil.java:512-514 | ((o+45)/90*90)%360 lies in {0,90,180,270} and within 45 degrees of o for o in [0,359] |
| CameraUtil.RoundOrientationIdempotent | src/com/android/camera/util/CameraUtil.java:503-516 | rounding again with the rounded value as history returns the same value |
| CameraUtil.NextPowerOf2 | src/com/android/camera/util/CameraUtil.java:420-428 | the bit-smearing result is a power of two with n <= r < 2n, so it is the smallest power of two not below n |
| CameraUtil.SmearBits | src/com/android/camera/util/CameraUtil.java:422-427 | after the five shifts-and-ors of n-1, adding 1 gives a single set bit between n and 2n-1 |
| CameraUtil.Clamp | src/com/android/camera/util/CameraUtil.java:436-440 | the result lies in [min,max] when min <= max, is x when x is already inside, and is always one of x, min, max |
| CameraUtil.ComputeSampleSize | src/com/android/camera/util/CameraUtil.java:282-298 | the rounded size is at least 1 and at least the initial size; up to 8 it is a power of two below twice the initial size, above 8 it is the next multiple of 8 |
| CameraUtil.FlipModeString | src/com/android/camera/util/CameraUtil.java:967-980 | a name exists exactly for the values 0..3 |
| CameraUtil.FlipModeRoundTrip | src/com/android/camera/util/CameraUtil.java:967-980 | reading a flip-mode name back gives the value it was made from |
| CameraUtil.LowestCoveringMin | src/com/android/camera/util/CameraUtil.java:1000-1010 | the lowest minimum among the ranges covering 30000, or the initial MAX_PREVIEW_FPS_TIMES_1000 when none beats it |
| CameraUtil.PhotoPreviewFpsRange | src/com/android/camera/util/CameraUtil.java:994-1031 | null for an empty list; otherwise the first range with the lowest covering minimum and, among those, the highest positive maximum; null only when every such range has maximum <= 0 |
| CameraUtil.ChosenRangeCovers | src/com/android/camera/util/CameraUtil.java:1000-1024 | when some range covers 30000, the chosen range covers it too |
| CameraUtil.Pad2 | src/com/android/camera/util/CameraUtil.java:1244-1263 | a field is written with at least two digits, exactly two below 100 |
| CameraUtil.Pad2Value | src/com/android/camera/util/CameraUtil.java:1244-1263 | the padded digits read back as the field's value |
| CameraUtil.TimeFields | src/com/android/camera/util/CameraUtil.java:1234-1268 | minutes and seconds are in [0,59], centiseconds in [0,99], and the fields recompose the duration up to the dropped millisecond |
| CameraUtil.Remainders | src/com/android/camera/util/CameraUtil.java:1234-1268 | the source's subtractions minutes-hours*60, seconds-minutes*60 and (ms-seconds*1000)/10 are the remainders the model uses |
| CameraUtil.AppendField | src/com/android/camera/util/CameraUtil.java:1253-1256 | appending a field adds its two-digit form |
| CameraUtil.MillisecondToTimeString | src/com/android/camera/util/CameraUtil.java:1233-1276 | the string is HH: (only when hours > 0), then MM:SS, then .CC on request, every field zero-padded to two digits |
| CameraUtil.NameStep | src/com/android/camera/util/CameraUtil.java:1061-1089 | a refocus name touches only the refocus index, a plain name only the same-second state |
| CameraUtil.RefocusCycle | src/com/android/camera/util/CameraUtil.java:1065-1075 | seven refocus names get _0 .. _4, _DepthMap, _Allfocus and the namer is back where it started |
| CameraUtil.SameSecondNames | src/com/android/camera/util/CameraUtil.java:1076-1086 | a plain name in a new second gets no suffix and resets the count; the k names that follow in that second get _1 .. _k |
| CameraUtil.SameSecondRun | src/com/android/camera/util/CameraUtil.java:1079-1081 | k names within the remembered second get _1 .. _k and leave the count at k |
| CameraUtil.PlainNames | src/com/android/camera/util/CameraUtil.java:1076-1086 | k plain names give k suffixes |
| CameraUtil.ImageFileNamer.constructor | src/com/android/camera/util/CameraUtil.java:1049-1059 | a new namer starts with refocus index 0, last date 0 and count 0 |
| CameraUtil.ImageFileNamer.GenerateName | src/com/android/camera/util/CameraUtil.java:1061-1089 | the name is the formatted date followed by the step's suffix, and the namer moves to the step's new state |
| Text.DecimalString | src/com/android/camera/util/CameraUtil.java:1247-1256 | a number is written as a non-empty string of digits without a leading zero (except 0 itself) |
| Text.DecimalRoundTrip | src/com/android/camera/util/CameraUtil.java:1247-1256 | the decimal digits of n read back as n |
| Text.IntString | src/com/android/camera/util/CameraUtil.java:1081 | an int is written as digits, with a leading '-' exactly when it is negative |
| Text.ParseInt | src/com/android/camera/util/PersistUtil.java:95-96 | a parsed value is a 32-bit int, the text starts with a sign or a digit, and any later non-digit makes the parse fail |
| Text.ParseIntString | src/com/android/camera/util/PersistUtil.java:95-96 | parsing the decimal form of a 32-bit int gives the int back |
| Text.Pieces | src/com/android/camera/util/PersistUtil.java:92 | splitting gives at least one piece and no piece contains the separator |
| Text.PiecesJoin | src/com/android/camera/util/PersistUtil.java:92 | joining the pieces with the separator gives the string back |
| Text.PiecesCons | src/com/android/camera/util/PersistUtil.java:92 | a separator-free prefix followed by the separator is the first piece |
| Text.PiecesNone | src/com/android/camera/util/PersistUtil.java:92 | a string without the separator is a single piece |
| Text.DropTrailingEmpty | src/com/android/camera/util/PersistUtil.java:92 | only trailing empty pieces are dropped, and the kept prefix does not end in one |
| Text.Split | src/com/android/camera/util/PersistUtil.java:92 | String.split on one character: the whole string when the separator is absent, otherwise the pieces with trailing empty ones removed |
| Text.Tokens | src/com/android/camera/CameraSettings.java:624-634 | the non-empty pieces, none containing the separator |
| Text.NonEmpty | src/com/android/camera/CameraSettings.java:628-632 | exactly the non-empty members of a list are kept |
| Text.IndexOf | src/com/android/camera/CameraSettings.java:427 | the first position of a character, or -1 exactly when it is absent |
| MpoTag.DataSize | src/com/android/camera/mpo/MpoTag.java:45-47 | a tag's value takes its component count times the width of its type: one byte per UNDEFINED or BYTE component, four per LONG |
| MpoTag.NewTag | src/com/android/camera/mpo/MpoTag.java:45-47 | a new tag has the given id and IFD, no components and a value of the kind its type calls for |
| MpoTag.SetBytes | src/com/android/camera/mpo/MpoTag.java:59 | a byte value is accepted exactly by a byte-typed tag and becomes its value |
| MpoTag.SetLong | src/com/android/camera/mpo/MpoData.java:174-180 | a long value is accepted exactly by a LONG tag when it is an unsigned 32-bit value, and becomes its single component |
| MpoTag.EntryBytes | src/com/android/camera/mpo/MpoTag.java:76-155 | an MP Entry is 16 bytes |
| MpoTag.DecodeEntry | src/com/android/camera/mpo/MpoTag.java:100-106 | reading 16 bytes gives an entry with 32-bit attribute, size and offset and 16-bit dependent images |
| MpoTag.EntryRoundTrip | src/com/android/camera/mpo/MpoTag.java:100-155 | decoding the bytes getBytes writes gives back all five fields |
| MpoTag.EntryBytesOfDecode | src/com/android/camera/mpo/MpoTag.java:100-155 | encoding a decoded entry gives back the 16 bytes it was read from |
| MpoTag.FieldsFitting | src/com/android/camera/mpo/MpoTag.java:148-158 | the bytes of the fields that fit before the limit: never more than the room left, all 16 exactly when 16 bytes remain |
| MpoTag.Put | src/com/android/camera/mpo/MpoTag.java:150-154 | a put succeeds exactly when the value fits before the limit and then overlays it at the position; otherwise the buffer is unchanged |
| MpoTag.GetBytes | src/com/android/camera/mpo/MpoTag.java:148-161 | getBytes returns true exactly when 16 bytes remain; the buffer gets the fields that fit, in order attrib, size, offset, dep1, dep2, big-endian |
| MpoTag.EntriesBytes | src/com/android/camera/mpo/MpoTag.java:54-58 | n entries encode to 16*n bytes |
| MpoTag.EntriesBytesAt | src/com/android/camera/mpo/MpoTag.java:55-58 | entry i occupies bytes 16*i .. 16*i+16 |
| MpoTag.DecodeAll | src/com/android/camera/mpo/MpoTag.java:67-72 | decoding yields bytes.length/16 entries, entry i read at 16*i |
| MpoTag.EntryAtRoundTrip | src/com/android/camera/mpo/MpoTag.java:54-72 | entry i decodes from its own 16 bytes of the encoding |
| MpoTag.EntriesRoundTrip | src/com/android/camera/mpo/MpoTag.java:54-72 | decoding the encoding of a list of entries gives the list |
| MpoTag.DecodeAllInverse | src/com/android/camera/mpo/MpoTag.java:54-72 | encoding the decoded entries of a multiple of 16 bytes gives the bytes back |
| MpoTag.EncodeEntries | src/com/android/camera/mpo/MpoTag.java:54-58 | the loop's byte array is the encoding of the entries, 16 bytes each |
| MpoTag.GetMpEntryValue | src/com/android/camera/mpo/MpoTag.java:62-73 | null for any tag other than MP Entry; the decoded entries for a byte value whose length is a multiple of 16; a failure otherwise |
| MpoTag.SetEntries | src/com/android/camera/mpo/MpoTag.java:49-60 | false for any tag other than MP Entry; otherwise the tag's value becomes the encoded entries |
| MpoTag.SetThenGetEntries | src/com/android/camera/mpo/MpoTag.java:49-73 | setting a list of entries and reading it back gives the list, taking 16 bytes per entry |
| MpoIfd.Ids | src/com/android/camera/mpo/MpoIfdData.java:34 | the ids held are exactly those of the stored tags |
| MpoIfd.IndexOf | src/com/android/camera/mpo/MpoIfdData.java:55-57 | the first position holding the id, none exactly when the id is absent |
| MpoIfd.Find | src/com/android/camera/mpo/MpoIfdData.java:55-57 | a lookup finds a tag exactly when its id is held, and the tag found has that id |
| MpoIfd.Bucket | src/com/android/camera/mpo/MpoIfdData.java:34-49 | the HashMap bucket of a short key, (h ^ h>>>16) & 15 of its sign-extended value, is one of 16 |
| MpoIfd.Slot | src/com/android/camera/mpo/MpoIfdData.java:47-64 | a new key goes after every key of its bucket or of a lower one |
| MpoIfd.SlotBounds | src/com/android/camera/mpo/MpoIfdData.java:47-64 | every tag before the slot is in a bucket no higher than the new key's, and the tag after it in a higher one |
| MpoIfd.PutTag | src/com/android/camera/mpo/MpoIfdData.java:62-65 | a put grows the tags by one exactly when the id is new |
| MpoIfd.InsertOrdered | src/com/android/camera/mpo/MpoIfdData.java:47-64 | inserting at the slot keeps the tags in bucket order |
| MpoIfd.PutOrdered | src/com/android/camera/mpo/MpoIfdData.java:47-64 | a put keeps the tags in the order getAllTags returns them |
| MpoIfd.FindMember | src/com/android/camera/mpo/MpoIfdData.java:55-57 | a stored tag is what a lookup of its id finds |
| MpoIfd.PutMembers | src/com/android/camera/mpo/MpoIfdData.java:62-65 | after a put the tags are the new tag and the old tags with other ids |
| MpoIfd.PutUnique | src/com/android/camera/mpo/MpoIfdData.java:62-65 | a put keeps one tag per id and adds the new id |
| MpoIfd.PutFind | src/com/android/camera/mpo/MpoIfdData.java:55-65 | after a put, a lookup of its id finds the new tag and every other lookup is unchanged |
| MpoIfd.UniqueCount | src/com/android/camera/mpo/MpoIfdData.java:81-83 | the number of stored tags is the number of distinct ids |
| MpoIfd.RemoveKeeps | src/com/android/camera/mpo/MpoIfdData.java:74-76 | removal keeps exactly the tags with other ids |
| MpoIfd.RemoveFind | src/com/android/camera/mpo/MpoIfdData.java:55-76 | after removing an id its lookup is null and every other lookup is unchanged |
| MpoIfd.RemoveOrdered | src/com/android/camera/mpo/MpoIfdData.java:47-76 | removal keeps the bucket order |
| MpoIfd.PutStamped | src/com/android/camera/mpo/MpoIfdData.java:62-65 | a put of a tag stamped with the IFD's id keeps all tags stamped, unique and ordered |
| MpoIfd.IfdEqualsIds | src/com/android/camera/mpo/MpoIfdData.java:104-125 | two IFDs that equals accepts hold the same ids |
| MpoIfd.IfdEqualsSymmetric | src/com/android/camera/mpo/MpoIfdData.java:104-125 | IFD equality is symmetric |
| MpoIfd.IfdEqualsReflexive | src/com/android/camera/mpo/MpoIfdData.java:104-125 | every IFD equals itself |
| MpoIfd.IfdData.constructor | src/com/android/camera/mpo/MpoIfdData.java:33-42 | a new IFD has the given id, no tags and next-IFD offset 0 |
| MpoIfd.IfdData.GetTag | src/com/android/camera/mpo/MpoIfdData.java:55-57 | getTag returns a tag exactly when its id is stored, and the tag has that id |
| MpoIfd.IfdData.CheckCollision | src/com/android/camera/mpo/MpoIfdData.java:67-69 | checkCollision holds exactly when getTag is not null |
| MpoIfd.IfdData.TagCount | src/com/android/camera/mpo/MpoIfdData.java:81-83 | the tag count is the number of distinct ids stored |
| MpoIfd.IfdData.SetTag | src/com/android/camera/mpo/MpoIfdData.java:62-65 | the tag is stamped with this IFD's id and replaces any tag with its id; the previous tag of that id is returned; the next-IFD offset is kept |
| MpoIfd.IfdData.RemoveTag | src/com/android/camera/mpo/MpoIfdData.java:74-76 | the tag of that id is removed and nothing else changes |
| MpoIfd.IfdData.OffsetToNextIfd | src/com/android/camera/mpo/MpoIfdData.java:95-97 | the next-IFD offset is the last value set, 0 before any |
| MpoIfd.IfdData.SetOffsetToNextIfd | src/com/android/camera/mpo/MpoIfdData.java:88-90 | the next-IFD offset becomes the value and the tags are unchanged |
| MpoIfd.IfdData.Equals | src/com/android/camera/mpo/MpoIfdData.java:104-125 | true for the same object, or when the tag counts agree and every tag of the other IFD equals this IFD's tag of its id |
| MpoImage.ExtraSize | src/com/android/camera/mpo/MpoImageData.java:222-225 | a tag adds bytes after the entries exactly when its value does not fit the 4-byte value field |
| MpoImage.IfdSize | src/com/android/camera/mpo/MpoImageData.java:218-228 | an IFD takes at least the 2-byte count, 12 bytes per entry and the 4-byte next offset |
| MpoImage.BigUpToMono | src/com/android/camera/mpo/MpoImageData.java:222-226 | the running total of big values never decreases along the tags |
| MpoImage.PlacedContiguous | src/com/android/camera/mpo/MpoImageData.java:222-226 | after the layout, the big values of two tags lie in order, do not overlap, and stay inside the IFD's value area |
| MpoImage.SameSizesPrefix | src/com/android/camera/mpo/MpoImageData.java:222-226 | the value-area offsets depend only on the tags' data sizes |
| MpoImage.PlacedValid | src/com/android/camera/mpo/MpoImageData.java:222-226 | setting the offsets keeps the IFD's tag ids unique, keeps the bucket order and keeps every tag in its IFD |
| MpoImage.PlacedSizes | src/com/android/camera/mpo/MpoImageData.java:222-226 | setting the offsets changes no tag's id, IFD or data size |
| MpoImage.PlacedTwice | src/com/android/camera/mpo/MpoImageData.java:218-228 | laying out an IFD's values twice from the same start gives the same offsets as once |
| MpoImage.AttribStart | src/com/android/camera/mpo/MpoImageData.java:232-236 | the attribute IFD starts after the 8-byte MP header and, when it has tags, the index IFD |
| MpoImage.AllIfdOffsets | src/com/android/camera/mpo/MpoImageData.java:230-243 | the MP header is 8 bytes plus each non-empty IFD's size; 8 when both IFDs are empty |
| MpoImage.LaidStable | src/com/android/camera/mpo/MpoImageData.java:218-228 | a laid-out IFD keeps its length and size, and laying it out again from the same start changes nothing |
| MpoImage.OffsetsStable | src/com/android/camera/mpo/MpoImageData.java:230-243 | a second calculateAllIfdOffsets computes the same offsets and total as the first |
| MpoImage.ImageData.constructor | src/com/android/camera/mpo/MpoImageData.java:42-45 | a new image holds the JPEG bytes and the byte order, with an empty index IFD and an empty attribute IFD |
| MpoImage.ImageData.GetMpIfdData | src/com/android/camera/mpo/MpoImageData.java:78-80 | the index IFD exactly for the index id, the attribute IFD for every other id |
| MpoImage.ImageData.GetTag | src/com/android/camera/mpo/MpoImageData.java:86-89 | a tag is found exactly when its id is in the chosen IFD, and the tag found has that id and comes from that IFD |
| MpoImage.ImageData.AddTagTo | src/com/android/camera/mpo/MpoImageData.java:107-112 | for a valid IFD id the tag is put into the chosen IFD, stamped with that IFD, and the tag it replaces is returned; for any other id nothing changes and nothing is returned |
| MpoImage.ImageData.AddTag | src/com/android/camera/mpo/MpoImageData.java:95-101 | the tag is put into the IFD it names, with the same cases as AddTagTo |
| MpoImage.ImageData.RemoveTag | src/com/android/camera/mpo/MpoImageData.java:117-119 | the id is removed from the chosen IFD and the other IFD is unchanged |
| MpoImage.ImageData.GetAllTags | src/com/android/camera/mpo/MpoImageData.java:125-145 | the index tags followed by the attribute tags; nothing exactly when both IFDs are empty |
| MpoImage.ImageData.GetAllTagsForIfd | src/com/android/camera/mpo/MpoImageData.java:151-164 | the chosen IFD's tags; nothing exactly when that IFD is empty |
| MpoImage.ImageData.GetAllTagsForTagId | src/com/android/camera/mpo/MpoImageData.java:170-186 | nothing exactly when neither IFD holds the id; otherwise one or two tags, each with that id, one for each IFD that holds it, the index IFD's first |
| MpoImage.ImageData.Equals | src/com/android/camera/mpo/MpoImageData.java:188-216 | true exactly when the images are the same object, or have the same byte order and equal index and attribute IFDs as IfdData.Equals decides; the JPEG bytes are not compared |
| MpoImage.ImageData.CalculateOffsetOfIfd | src/com/android/camera/mpo/MpoImageData.java:218-228 | the big values are given consecutive offsets after the entries, and the result is the start plus the IFD's size |
| MpoImage.ImageData.CalculateAllIfdOffsets | src/com/android/camera/mpo/MpoImageData.java:230-243 | returns AllIfdOffsets; lays the index IFD out from 8 and the attribute IFD after it, and links the index IFD to the attribute IFD when the attribute IFD has tags |
| MpoImage.ImageData.CalculateImageSize | src/com/android/camera/mpo/MpoImageData.java:245-247 | the image's size in the file: 2 marker bytes, the 6-byte APP2 header, the MP header and IFDs, and the JPEG bytes |
| MpoImage.ImageEqualsSymmetric | src/com/android/camera/mpo/MpoImageData.java:188-216 | image equality is symmetric |
| MpoIfdBytes.LongsBytes | src/com/android/camera/mpo/MpoOutputStream.java:387-392 | each long component is written as 4 bytes |
| MpoIfdBytes.TagValueBytes | src/com/android/camera/mpo/MpoOutputStream.java:374-411 | writeTagValue writes exactly the tag's data size |
| MpoIfdBytes.ValueFieldContents | src/com/android/camera/mpo/MpoOutputStream.java:357-364 | a value of 4 bytes or fewer is written in the entry and zero-padded to 4 bytes; a bigger one is replaced by its 32-bit offset |
| MpoIfdBytes.EntryRecord | src/com/android/camera/mpo/MpoOutputStream.java:351-364 | every IFD entry is 12 bytes |
| MpoIfdBytes.EntriesLength | src/com/android/camera/mpo/MpoOutputStream.java:350-365 | the entries of k tags take 12k bytes |
| MpoIfdBytes.BigValuesLength | src/com/android/camera/mpo/MpoOutputStream.java:367-371 | the values written after the next-IFD offset take exactly the space the layout reserved for the big values |
| MpoIfdBytes.IfdPartsLength | src/com/android/camera/mpo/MpoOutputStream.java:346-372 | the count ends at byte 2, the entries at 2+12n, the next offset at 6+12n, and then the big values follow |
| MpoIfdBytes.IfdBytesSize | src/com/android/camera/mpo/MpoOutputStream.java:346-372 | writeIfd writes exactly the number of bytes calculateOffsetOfIfd reserved for the IFD (MpoImageData.java:218-228) |
| MpoIfdBytes.WriteTagValue | src/com/android/camera/mpo/MpoOutputStream.java:374-411 | the bytes written are the tag's value in the stream's byte order |
| MpoIfdBytes.WriteEntry | src/com/android/camera/mpo/MpoOutputStream.java:351-364 | the bytes written are the 12-byte entry: id, type, count, then value field |
| MpoIfdBytes.WriteIfd | src/com/android/camera/mpo/MpoOutputStream.java:346-372 | the bytes written are the count, the entries, the next-IFD offset and the big values, in that order |
| MpoIfdLayout.EntryInIfd | src/com/android/camera/mpo/MpoOutputStream.java:349-365 | entry k of a written IFD sits at bytes 2+12k to 2+12k+12 |
| MpoIfdLayout.BigValueAt | src/com/android/camera/mpo/MpoOutputStream.java:367-371 | a big tag's value sits in the value area at the running total of the big values before it |
| MpoIfdLayout.BigValueInIfd | src/com/android/camera/mpo/MpoOutputStream.java:346-372 | a big tag's value sits in the written IFD after the entries and the next offset, at the running total of the big values before it |
| MpoIfdLayout.LaidTag | src/com/android/camera/mpo/MpoImageData.java:218-228 | after the layout, each big tag's offset from the IFD's start points past the entries and the next offset, at its running big-value total |
| MpoIfdLayout.LaidOutOffsets | src/com/android/camera/mpo/MpoOutputStream.java:346-372 | after calculateOffsetOfIfd, a big tag's recorded offset points at exactly the bytes writeIfd writes for its value |
| MpoEntries.FormatVersionTag | src/com/android/camera/mpo/MpoData.java:75-77 | the MP Format Version tag has that id and IFD and a 4-byte value |
| MpoEntries.WithLong | src/com/android/camera/mpo/MpoData.java:107-180 | a long tag given an unsigned 32-bit value holds exactly that value; any other value leaves the tag as it was |
| MpoEntries.ImageNumberTag | src/com/android/camera/mpo/MpoData.java:80-82 | the Image Number tag belongs to the attribute IFD and holds the image number |
| MpoEntries.NumImagesTag | src/com/android/camera/mpo/MpoData.java:101-107 | the Number of Images tag has that id |
| MpoEntries.EntryTag | src/com/android/camera/mpo/MpoData.java:111-118 | the MP Entry tag belongs to the index IFD and holds the encoded entry list |
| MpoEntries.ZeroEntries | src/com/android/camera/mpo/MpoData.java:113-117 | the placeholder list has one all-zero entry per image |
| MpoEntries.MpEntries | src/com/android/camera/mpo/MpoData.java:145-158 | one entry for the primary image and one per auxiliary image |
| MpoEntries.AuxEntry | src/com/android/camera/mpo/MpoData.java:153-158 | an auxiliary image's entry is a valid MP Entry |
| MpoEntries.ImageNumberOf | src/com/android/camera/mpo/MpoData.java:169-181 | every image after the primary one is numbered by its position, from 1 |
| MpoEntries.EntriesFor | src/com/android/camera/mpo/MpoData.java:145-159 | the MP Entry list has one valid entry per image |
| MpoEntries.NextAfterLayout | src/com/android/camera/mpo/MpoImageData.java:236-240 | the index IFD links to the attribute IFD's start when the attribute IFD has tags, and keeps its link otherwise |
| MpoEntryFacts.RunningOffsetSum | src/com/android/camera/mpo/MpoData.java:147-158 | the running Java int offset is the primary image's size plus the sizes before it, wrapped to 32 bits |
| MpoEntryFacts.MpEntriesLayout | src/com/android/camera/mpo/MpoData.java:147-158 | while the sizes fit a Java int: the primary entry is at offset 0 with the representative flag, and each auxiliary entry holds its size and starts where the entry before it ends |
| MpoEntryFacts.AuxEntryExact | src/com/android/camera/mpo/MpoData.java:153-158 | while the sizes fit a Java int, an auxiliary entry holds its size and the sum of the sizes before it, unwrapped |
| MpoEntryFacts.SumMono | src/com/android/camera/mpo/MpoData.java:153-158 | the running sum of non-negative sizes never decreases |
| MpoEntryFacts.FormatStep | src/com/android/camera/mpo/MpoData.java:92-99 | after the format version step the index IFD has a format version tag, still unique ids, and the same Number of Images tag |
| MpoEntryFacts.CountStep | src/com/android/camera/mpo/MpoData.java:92-108 | after the count step the Number of Images tag holds the number of images |
| MpoEntryFacts.IndexDefaultsHold | src/com/android/camera/mpo/MpoData.java:86-120 | after addDefaultIndexIfdTags the index IFD has unique ids, a format version tag, the image count, and the all-zero MP Entry list |
| MpoEntryFacts.AttribDefaultsHold | src/com/android/camera/mpo/MpoData.java:74-84 | after addDefaultAttribIfdTags the attribute IFD holds the format version tag and the given image number |
| MpoEntryFacts.FindLaid | src/com/android/camera/mpo/MpoImageData.java:218-228 | the layout keeps every tag id: a tag is found after it exactly when it was found before, differing at most in its offset |
| MpoEntryFacts.IndexWithCountHolds | src/com/android/camera/mpo/MpoData.java:133-140 | after the count step of updateIndexIfdTags, the Number of Images tag holds the number of images |
| MpoEntryFacts.FinalIndexEntries | src/com/android/camera/mpo/MpoData.java:143-160 | after updateIndexIfdTags the MP Entry tag is the tag for the computed entries, and its bytes decode back to those entries |
| MpoEntryFacts.FinalIndexCount | src/com/android/camera/mpo/MpoData.java:149-160 | sizing the primary image and adding the MP Entry tag keep its Number of Images tag |
| MpoEntryFacts.EntryStep | src/com/android/camera/mpo/MpoData.java:153-158 | one loop turn appends the next entry of the list and advances the running offset by the image's size, wrapping as a Java int |
| MpoData.PlaceholderEntries | src/com/android/camera/mpo/MpoData.java:113-117 | builds one all-zero entry per image |
| MpoData.MpoData.constructor | src/com/android/camera/mpo/MpoData.java:42-43 | a new MpoData has no primary image and no auxiliary images |
| MpoData.MpoData.AuxiliaryImageCount | src/com/android/camera/mpo/MpoData.java:70-72 | the number of auxiliary images |
| MpoData.MpoData.Images | src/com/android/camera/mpo/MpoData.java:62-68 | the primary image, when set, followed by the auxiliary images |
| MpoData.MpoData.AddDefaultAttribIfdTags | src/com/android/camera/mpo/MpoData.java:74-84 | the image's attribute IFD gets the format version tag and the given image number; nothing else changes |
| MpoData.MpoData.AddDefaultIndexIfdTags | src/com/android/camera/mpo/MpoData.java:86-120 | fails and changes nothing exactly when there is no primary image or no auxiliary image; otherwise the primary image's index IFD gets the default index tags |
| MpoData.MpoData.SetPrimaryMpoImage | src/com/android/camera/mpo/MpoData.java:45-49 | the image becomes primary and gets the default attribute tags as image 1; its index IFD gets the default index tags, which fail when there is no auxiliary image |
| MpoData.MpoData.AddAuxiliaryMpoImage | src/com/android/camera/mpo/MpoData.java:51-55 | the image is appended to the auxiliary list and numbered by its position among all images |
| MpoData.MpoData.RemoveAuxiliaryMpoImage | src/com/android/camera/mpo/MpoData.java:57-60 | the first auxiliary image equal to the given one is removed and true returned; false and no change when none is equal |
| MpoData.MpoData.UpdateAttribIfdTags | src/com/android/camera/mpo/MpoData.java:163-183 | fails and changes nothing without a primary and an auxiliary image; otherwise the primary image is numbered 0xFFFFFFFF and the auxiliary images 1, 2, ... |
| MpoData.MpoData.NumberImages | src/com/android/camera/mpo/MpoData.java:163-183 | the same numbering, stated image by image |
| MpoData.MpoData.UpdateIndexIfdTags | src/com/android/camera/mpo/MpoData.java:127-161 | fails and changes nothing without a primary and an auxiliary image; otherwise every auxiliary image is laid out, and the primary image's index IFD gets the image count, its layout and the MP Entry list built from every image's size |
| MpoData.MpoData.UpdateAllTags | src/com/android/camera/mpo/MpoData.java:122-125 | the image numbers first, then the index tags, so that the sizes in the MP entries include the Image Number tags |
| MpoStream.Code | src/com/android/camera/mpo/MpoOutputStream.java:166-195 | a marker code or segment length read from two bytes is an unsigned 16-bit value |
| MpoStream.LaidOut | src/com/android/camera/mpo/MpoOutputStream.java:292 | laying out the current image keeps the number and size of tags in both IFDs, its byte order, the attribute IFD's link and its JPEG bytes |
| MpoStream.SegmentHead | src/com/android/camera/mpo/MpoOutputStream.java:298-310 | the APP2 marker, the segment length, "MPF\0", the byte-order mark and the TIFF magic number take 12 bytes |
| MpoStream.IfdPart | src/com/android/camera/mpo/MpoOutputStream.java:336-343 | a non-empty IFD is written in exactly its laid-out size; an empty one is not written |
| MpoStream.ShiftOffsets | src/com/android/camera/mpo/MpoOutputStream.java:320-332 | the shifted list has the same number of entries, all valid |
| MpoStream.ShiftedIndex | src/com/android/camera/mpo/MpoOutputStream.java:320-332 | the shift succeeds exactly when the index IFD has an MP Entry tag whose bytes are a whole number of 16-byte entries |
| MpoStream.Reset | src/com/android/camera/mpo/MpoOutputStream.java:82-87 | resetStates puts the stream back at STATE_SOI with nothing to skip or copy and the buffer rewound |
| MpoStream.Take | src/com/android/camera/mpo/MpoOutputStream.java:89-94 | requestByteToBuffer takes the bytes still wanted, or all the bytes there are if fewer |
| MpoStream.AllTags | src/com/android/camera/mpo/MpoOutputStream.java:334-344 | an empty index IFD is not shifted; the bytes written are the two IFD parts |
| MpoStream.MpoWrite | src/com/android/camera/mpo/MpoOutputStream.java:285-318 | writeMpoData changes only the header position, the image and the byte count, and counts exactly the bytes it writes |
| MpoStream.SoiStep | src/com/android/camera/mpo/MpoOutputStream.java:158-173 | STATE_SOI keeps the stream well formed and counts the bytes it writes; when it goes on it has taken at least one byte |
| MpoStream.EoiCheck | src/com/android/camera/mpo/MpoOutputStream.java:179-217 | the end-of-image check only acts when the header read stopped at position 2, and writes at most 2 bytes |
| MpoStream.Collect | src/com/android/camera/mpo/MpoOutputStream.java:177-189 | the header read changes only the buffer, its position and the byte count, and takes at least one byte |
| MpoStream.MarkerStep | src/com/android/camera/mpo/MpoOutputStream.java:190-206 | a full header either copies an APP0/APP1 header and takes it, or writes the MPO segment and moves to a later phase without taking input |
| MpoStream.HeaderStep | src/com/android/camera/mpo/MpoOutputStream.java:174-206 | STATE_FRAME_HEADER either takes input or moves to a later phase |
| MpoStream.CropStep | src/com/android/camera/mpo/MpoOutputStream.java:221-258 | STATE_SKIP_CROP with a full header always goes on, having taken that header |
| MpoStream.SkipCropStep | src/com/android/camera/mpo/MpoOutputStream.java:207-258 | STATE_SKIP_CROP takes at least one byte when it goes on |
| MpoStream.Switch | src/com/android/camera/mpo/MpoOutputStream.java:157-259 | each pass of the switch either takes input or moves to a later phase, so the loop ends |
| MpoStream.Drain | src/com/android/camera/mpo/MpoOutputStream.java:139-153 | the pending skip and copy are done first; when input remains after them nothing is left pending |
| MpoStream.Run | src/com/android/camera/mpo/MpoOutputStream.java:138-265 | a write that returns normally has added to mSize exactly the bytes it wrote |
| MpoStream.Stepped | src/com/android/camera/mpo/MpoOutputStream.java:154-259 | a pass with nothing pending counts exactly the bytes it writes |
| MpoStream.SteppedBySwitch | src/com/android/camera/mpo/MpoOutputStream.java:157-259 | with nothing pending and the image data not reached, a pass of the loop is the current phase's step |
| MpoStream.AuxRuns | src/com/android/camera/mpo/MpoOutputStream.java:125-130 | writing the auxiliary images counts exactly the bytes written |
| MpoStream.AuxStops | src/com/android/camera/mpo/MpoOutputStream.java:125-130 | once an auxiliary image throws, no later image is written |
| MpoStream.WriteFile | src/com/android/camera/mpo/MpoOutputStream.java:113-131 | writeMpoFile counts exactly the bytes it writes |
| MpoStreamFacts.BigUpToReplace | src/com/android/camera/mpo/MpoOutputStream.java:328-331 | replacing a tag by one with the same value size keeps the value-area offsets |
| MpoStreamFacts.ShiftedIndexSize | src/com/android/camera/mpo/MpoOutputStream.java:320-332 | shifting the MP Entry offsets keeps the index IFD's tag count and size |
| MpoStreamFacts.HeadFields | src/com/android/camera/mpo/MpoOutputStream.java:298-299 | the segment starts with the APP2 marker FF E2 followed by its length |
| MpoStreamFacts.AllTagsLength | src/com/android/camera/mpo/MpoOutputStream.java:334-344 | writeAllTags writes exactly the sizes of the non-empty IFDs |
| MpoStreamFacts.WithTagsOut | src/com/android/camera/mpo/MpoOutputStream.java:311-313 | a segment with tags is its first 16 bytes followed by the IFDs |
| MpoStreamFacts.EmitLength | src/com/android/camera/mpo/MpoOutputStream.java:292-317 | the segment written is 2 bytes longer than the length in its header (the marker), and starts with the 12-byte head |
| MpoStreamFacts.SegmentLength | src/com/android/camera/mpo/MpoOutputStream.java:285-318 | the APP2 segment starts with FF E2, its length field holds the computed exif size, and it is that size plus 2 bytes long |
| MpoStreamFacts.MpoWriteEmits | src/com/android/camera/mpo/MpoOutputStream.java:292-303 | when writeMpoData writes, the exif size is within 65535 and is the laid-out IFDs plus the 6-byte header |
| MpoStreamFacts.NothingPending | src/com/android/camera/mpo/MpoOutputStream.java:139-156 | with nothing to skip or copy, a write is one pass of the switch |
| MpoStreamFacts.DrainFirst | src/com/android/camera/mpo/MpoOutputStream.java:139-153 | a write first does its pending skip and copy |
| MpoWriteFacts.CopyPayload | src/com/android/camera/mpo/MpoOutputStream.java:146-153 | a pending copy writes the next bytes of the input unchanged |
| MpoWriteFacts.SkipPayload | src/com/android/camera/mpo/MpoOutputStream.java:140-145 | a pending skip drops the next bytes of the input |
| MpoWriteFacts.JpegDataCopied | src/com/android/camera/mpo/MpoOutputStream.java:139-264 | in the image data with nothing pending, the whole input is copied unchanged |
| MpoWriteFacts.SoiStepFull | src/com/android/camera/mpo/MpoOutputStream.java:158-173 | with two bytes available, STATE_SOI throws unless they are SOI, and otherwise writes SOI and moves to the frame header |
| MpoWriteFacts.NotJpeg | src/com/android/camera/mpo/MpoOutputStream.java:166-168 | input that does not start with SOI throws before any byte is written |
| MpoWriteFacts.SoiCopied | src/com/android/camera/mpo/MpoOutputStream.java:158-173 | an input starting with SOI writes SOI and continues in the frame header phase |
| MpoWriteFacts.AppCopied | src/com/android/camera/mpo/MpoOutputStream.java:192-197 | an APP0 or APP1 segment is copied whole |
| MpoWriteFacts.MpoThrows | src/com/android/camera/mpo/MpoOutputStream.java:293-295 | a segment over 65535 bytes throws before any byte of it is written |
| MpoWriteFacts.MpoInserted | src/com/android/camera/mpo/MpoOutputStream.java:198-204 | at the first marker that is neither APP0 nor APP1 the MPO segment is written before it, and the marker is left in the input |
| MpoWriteFacts.RestCopied | src/com/android/camera/mpo/MpoOutputStream.java:198-264 | outside skip-crop mode, the MPO segment is followed by the rest of the input unchanged |
| MpoWriteFacts.SofEnds | src/com/android/camera/mpo/MpoOutputStream.java:251-256 | in skip-crop mode, a SOF header ends the search and the input is copied unchanged |
| MpoWriteFacts.CropZeroed | src/com/android/camera/mpo/MpoOutputStream.java:227-242 | in skip-crop mode, a segment whose payload starts with the dual camera crop magic is written with its payload zeroed, and the rest of the input copied; the output is as long as the input |
| MpoWriteFacts.CropCopied | src/com/android/camera/mpo/MpoOutputStream.java:243-249 | any other segment before the SOF is copied whole |
| MpoWriteFacts.StaleEoiCheck | src/com/android/camera/mpo/MpoOutputStream.java:179-186 | as written, an image that is only SOI then EOI gets the MPO segment inserted before its EOI, because the EOI check reads the two bytes left from an earlier header |
| MpoWriteFacts.EoiEnds | src/com/android/camera/mpo/MpoOutputStream.java:179-217 | with the intended check, an EOI where a header is expected is written and ends the call |
| MpoWriteFacts.EmptySegment | src/com/android/camera/mpo/MpoOutputStream.java:311-315 | with both IFDs empty the segment is the 12-byte head and a zero first-IFD offset |
| MpoWriteFacts.SoiEoiAsWritten | src/com/android/camera/mpo/MpoOutputStream.java:158-217 | as written, the image SOI EOI comes out as SOI, the MPO segment, EOI |
| MpoWriteFacts.SoiEoiIntended | src/com/android/camera/mpo/MpoOutputStream.java:158-217 | with the intended check, the image SOI EOI is written unchanged |
| MpoOutput.IsDualCamCropInfo | src/com/android/camera/mpo/MpoOutputStream.java:96-111 | true exactly when all 31 crop bytes were read and they are the magic string |
| MpoOutput.UpdateIndexIfdOffsets | src/com/android/camera/mpo/MpoOutputStream.java:320-332 | the index IFD whose MP Entry offsets after the first are taken off by the MP header's position |
| MpoOutput.WriteAllTags | src/com/android/camera/mpo/MpoOutputStream.java:334-344 | the shifted index IFD and the bytes of the non-empty IFDs, as AllTags says |
| MpoOutput.MpoOutputStream.constructor | src/com/android/camera/mpo/MpoOutputStream.java:57-71 | a new stream is at STATE_SOI with nothing pending, no MPO data, no header position and nothing written |
| MpoOutput.MpoOutputStream.SetMpoData | src/com/android/camera/mpo/MpoOutputStream.java:77-80 | the stream holds the MPO data and nothing else changes |
| MpoOutput.MpoOutputStream.WriteMpoData | src/com/android/camera/mpo/MpoOutputStream.java:285-318 | the stream's state and output move exactly as MpoWrite says |
| MpoOutput.MpoOutputStream.SoiState | src/com/android/camera/mpo/MpoOutputStream.java:158-173 | the state and output move as SoiStep says |
| MpoOutput.MpoOutputStream.HeaderState | src/com/android/camera/mpo/MpoOutputStream.java:174-206 | the state and output move as HeaderStep says |
| MpoOutput.MpoOutputStream.SkipCropState | src/com/android/camera/mpo/MpoOutputStream.java:207-258 | the state and output move as SkipCropStep says |
| MpoOutput.MpoOutputStream.Write | src/com/android/camera/mpo/MpoOutputStream.java:137-265 | the loop's state and output move exactly as Run says with the intended EOI check: ok when no exception, the new state, and the bytes appended |
| MpoOutput.MpoOutputStream.WriteMpoFile | src/com/android/camera/mpo/MpoOutputStream.java:113-131 | without MPO data nothing is written (the source dereferences null); otherwise the state and output move exactly as WriteFile says |
| ZslQueue.CheckImageRequirement | src/com/android/camera/imageprocessor/ZSLQueue.java:278-305 | a frame with the lens moving, or auto-exposure or auto-focus scanning, is refused; a settled frame whose white balance is not searching is accepted; one whose white balance is searching is refused unless flash is required |
| ZslQueue.Next | src/com/android/camera/imageprocessor/ZSLQueue.java:90-121 | the next slot index, wrapping to 0 after the last |
| ZslQueue.SourcePrune | src/com/android/camera/imageprocessor/ZSLQueue.java:168-172 | as written, the loop that drops expired requests removes at most one of them |
| ZslQueue.SourcePruneThrows | src/com/android/camera/imageprocessor/ZSLQueue.java:168-172 | as written, three pending requests with the oldest expired make the for-each throw ConcurrentModificationException |
| ZslQueue.SourcePruneKeepsExpired | src/com/android/camera/imageprocessor/ZSLQueue.java:168-172 | as written, of two expired requests only the first is removed |
| ZslQueue.Prune | src/com/android/camera/imageprocessor/ZSLQueue.java:168-172 | every request kept is unexpired, and every unexpired request is kept, as often as it occurs |
| ZslQueue.PruneAgrees | src/com/android/camera/imageprocessor/ZSLQueue.java:168-172 | when no request has expired, the source's loop and the corrected one both keep every request |
| ZslQueue.Queue.constructor | src/com/android/camera/imageprocessor/ZSLQueue.java:72-81 | a new queue has the given number of empty slots, both heads at 0 and no pending request |
| ZslQueue.Queue.FindMeta | src/com/android/camera/imageprocessor/ZSLQueue.java:83-93 | -1 exactly when no slot's metadata has the timestamp; otherwise the first such slot going forward from index, wrapping around |
| ZslQueue.Queue.FindImage | src/com/android/camera/imageprocessor/ZSLQueue.java:95-105 | -1 exactly when no slot's image has the timestamp; otherwise the first such slot going forward from index, wrapping around |
| ZslQueue.Queue.StoreImage | src/com/android/camera/imageprocessor/ZSLQueue.java:107-141 | the head slot's old image is closed; the image is stored at the head when the head has no metadata or metadata with the same timestamp, closed when the head's metadata is newer, and otherwise stored by the first slot with matching metadata or, without one, at the head with its metadata dropped; the head moves one past the slot written |
| ZslQueue.Queue.StoreMeta | src/com/android/camera/imageprocessor/ZSLQueue.java:180-224 | a timestamp of -1 changes nothing; otherwise the metadata is stored at the head when the head has no image or an image with the same timestamp, dropped when the head's image is newer, and otherwise stored by the first slot with a matching image or, without one, at the head with its image closed; with no image at the head the index reported is the image head, as written |
| ZslQueue.Queue.ProcessPendingRequest | src/com/android/camera/imageprocessor/ZSLQueue.java:155-178 | an eligible item at the index is taken out and handed on, the oldest request is served and the expired ones dropped; otherwise nothing changes |
| ZslQueue.Queue.AgePending | src/com/android/camera/imageprocessor/ZSLQueue.java:149-234 | every pending request's lifetime goes up by one |
| ZslQueue.Queue.ServePending | src/com/android/camera/imageprocessor/ZSLQueue.java:145-235 | with requests pending, the slot written is offered to the oldest request and every remaining request ages by one frame; without pending requests nothing changes |
| ZslQueue.Queue.AddImage | src/com/android/camera/imageprocessor/ZSLQueue.java:107-153 | a closed queue ignores the image; with no request pending none is served and the list stays empty; otherwise every remaining request has been aged at least once |
| ZslQueue.Queue.AddMetadata | src/com/android/camera/imageprocessor/ZSLQueue.java:180-236 | a closed queue ignores the metadata; a timestamp of -1 returns before the pending requests, so buffer, heads, requests and closures are all unchanged; with no request pending none is served; otherwise every remaining request has been aged at least once |
| ZslQueue.Queue.TryToGetMatchingItem | src/com/android/camera/imageprocessor/ZSLQueue.java:238-253 | the first eligible slot going back from the image head is taken out and returned; None, with the buffer unchanged, exactly when no slot is eligible |
| ZslQueue.Queue.AddPictureRequest | src/com/android/camera/imageprocessor/ZSLQueue.java:255-260 | a new request with lifetime 0 is appended |
| ZslQueue.Queue.OnClose | src/com/android/camera/imageprocessor/ZSLQueue.java:262-276 | every slot's image is closed in slot order, every slot is cleared, the buffer is dropped, both heads go back to 0 and the pending requests are cleared |
| ZslQueue.ClosedImages | src/com/android/camera/imageprocessor/ZSLQueue.java:264-270 | there are at most as many closed images as slots |
| PostProcessor.ItemImages | src/com/android/camera/imageprocessor/PostProcessor.java:204-208 | dropping an item closes its image first, then its raw image if it has one |
| PostProcessor.AllImages | src/com/android/camera/imageprocessor/PostProcessor.java:202-211 | clearing closes at least one image per item |
| PostProcessor.SourceEvictionCloses | src/com/android/camera/imageprocessor/PostProcessor.java:232-241 | as written, an eviction closes the evicted item's image and the raw image of the item just added |
| PostProcessor.SourceClosesKeptRaw | src/com/android/camera/imageprocessor/PostProcessor.java:232-241 | as written, the raw image of an item that stays in the list is closed, and the evicted item's raw image is not |
| PostProcessor.EvictionCloses | src/com/android/camera/imageprocessor/PostProcessor.java:232-241 | the corrected eviction closes both images of the evicted item |
| PostProcessor.EvictionClosesEvicted | src/com/android/camera/imageprocessor/PostProcessor.java:232-241 | every image the corrected eviction closes belongs to the evicted item |
| PostProcessor.Processor.constructor | src/com/android/camera/imageprocessor/PostProcessor.java:105-617 | a new post-processor has no fall-off items, no filter, status DEINIT and no images |
| PostProcessor.Processor.ClearFallOffImage | src/com/android/camera/imageprocessor/PostProcessor.java:201-213 | every item's image and raw image are closed in list order, and the list is emptied |
| PostProcessor.Processor.FindFallOffImage | src/com/android/camera/imageprocessor/PostProcessor.java:215-227 | the first item whose image has the timestamp is taken out of the list and returned; None, with the list unchanged, exactly when no item has it |
| PostProcessor.Processor.AddFallOffImage | src/com/android/camera/imageprocessor/PostProcessor.java:229-243 | the item is appended; when the list reaches ten, the first item is closed and removed |
| PostProcessor.Processor.SetFilter | src/com/android/camera/imageprocessor/PostProcessor.java:848-903 | an index outside [0, FILTER_MAX) is refused with nothing changed; otherwise the status becomes DEINIT, and the result is true exactly when a supported filter other than FILTER_NONE is chosen, which then sizes the image array |
| PostProcessor.Processor.IsReadyToProcess | src/com/android/camera/imageprocessor/PostProcessor.java:905-915 | ready exactly when there is no filter or at least as many images as it needs have arrived |
| PostProcessor.SourceResizeRoi | src/com/android/camera/imageprocessor/PostProcessor.java:1143-1152 | as written: Java division of each edge by the ratio (an ArithmeticException for ratio 0), then the right and bottom edges are reset only when the region is wider or taller than the new image |
| PostProcessor.SourceRoiPastEdge | src/com/android/camera/imageprocessor/PostProcessor.java:1145-1152 | as written, a region that starts inside the image can end past its right edge |
| PostProcessor.ResizeRoi | src/com/android/camera/imageprocessor/PostProcessor.java:1143-1152 | corrected: the scaled region's right and bottom edges never pass the new image's, and are unchanged when they already fit |
| PostProcessor.ResizeRoiAgreesAtOrigin | src/com/android/camera/imageprocessor/PostProcessor.java:1145-1152 | for a region anchored at the origin, the as-written and corrected versions agree |
| DdmEngine.CropInfoOf | src/org/codeaurora/snapcam/filter/DDMNativeEngine.java:245-266 | the stream id, zooms and scale ratio are the 1st, 10th, 11th and 12th ints read; each rectangle's left and top are the ints read for them |
| DdmEngine.RotationInfoOf | src/org/codeaurora/snapcam/filter/DDMNativeEngine.java:281-287 | JPEG rotation, device rotation and stream id are the three ints in order |
| DdmEngine.ReprocessInfoOf | src/org/codeaurora/snapcam/filter/DDMNativeEngine.java:341-350 | the focal-length ratio and pipeline flip are the 49th and 50th values read, after four crop records |
| DdmEngine.ReprocessInfoFromBytes | src/org/codeaurora/snapcam/filter/DDMNativeEngine.java:336-350 | a record is read exactly when the blob holds the 212 bytes it needs, little-endian from offset 0 |
| DdmEngine.CropInts | src/org/codeaurora/snapcam/filter/DDMNativeEngine.java:245-266 | the serialised crop record is 12 ints long |
| DdmEngine.ReprocessInts | src/org/codeaurora/snapcam/filter/DDMNativeEngine.java:341-350 | the serialised reprocess record is 53 ints long |
| DdmEngine.RectRoundTrip | src/org/codeaurora/snapcam/filter/DDMNativeEngine.java:249-252 | a rectangle whose edges fit Java ints is rebuilt from its left, top, width and height |
| DdmEngine.CropRoundTrip | src/org/codeaurora/snapcam/filter/DDMNativeEngine.java:245-266 | parsing the 12 ints of a crop record gives the record back |
| DdmEngine.ReprocessOfInts | src/org/codeaurora/snapcam/filter/DDMNativeEngine.java:341-350 | parsing the 53 ints of a reprocess record gives the record back |
| DdmEngine.ReprocessIntsInt32 | src/org/codeaurora/snapcam/filter/DDMNativeEngine.java:341-350 | every value written for a fitting reprocess record is a Java int |
| DdmEngine.ReprocessRoundTrip | src/org/codeaurora/snapcam/filter/DDMNativeEngine.java:336-350 | a record written little-endian and followed by any bytes parses back to itself |
| DdmEngine.RectSizesInt32 | src/org/codeaurora/snapcam/filter/DDMNativeEngine.java:249-259 | the widths and heights written for a fitting crop record are Java ints |
| DdmEngine.Engine.constructor | src/org/codeaurora/snapcam/filter/DDMNativeEngine.java:66-74 | a new engine holds no images, records or calibration, and the focus distance is 0 |
| DdmEngine.Engine.Reset | src/org/codeaurora/snapcam/filter/DDMNativeEngine.java:90-96 | images, records and focus distance are cleared, the calibration is kept, and the engine is not ready |
| DdmEngine.Engine.SetBayerImage | src/org/codeaurora/snapcam/filter/DDMNativeEngine.java:105-107 | only the bayer image changes |
| DdmEngine.Engine.SetMonoImage | src/org/codeaurora/snapcam/filter/DDMNativeEngine.java:109-111 | only the mono image changes |
| DdmEngine.Engine.SetBayerLensFocusDistance | src/org/codeaurora/snapcam/filter/DDMNativeEngine.java:102-104 | only the focus distance changes |
| DdmEngine.Engine.SetCalibration | src/org/codeaurora/snapcam/filter/DDMNativeEngine.java:82-84 | only the calibration changes |
| DdmEngine.Engine.SetReprocessResult | src/org/codeaurora/snapcam/filter/DDMNativeEngine.java:113-125 | the bayer or mono record becomes the parsed blob and nothing else changes; a short blob throws and changes nothing |
| DdmEngine.Engine.DualCameraGenerateDDM | src/org/codeaurora/snapcam/filter/DDMNativeEngine.java:131-190 | the rectangle is produced exactly when the focus distance is non-zero, the buffer is given, and both images, both records and the calibration are present; the result is then the native answer and the rectangle is left, top, left+width, top+height |
| ClearSight.SourceExposureTenfold | src/org/codeaurora/snapcam/filter/ClearSightNativeEngine.java:266-278 | as written, the exposure is divided by 100000, so a one-millisecond exposure reaches the native call as 10 |
| ClearSight.ExposureMs | src/org/codeaurora/snapcam/filter/ClearSightNativeEngine.java:266-278 | corrected: the exposure in whole milliseconds, floor of nanoseconds / 1000000 |
| ClearSight.ExposureMsExact | src/org/codeaurora/snapcam/filter/ClearSightNativeEngine.java:266-278 | an exposure of k milliseconds is passed as k |
| ClearSight.RoiSizeRoundTrip | src/org/codeaurora/snapcam/filter/ClearSightNativeEngine.java:329-351 | the ClearsightImage's width and height are the native w and h, despite the Java int wrap-around of right and bottom |
| ClearSight.WrapCancels | src/org/codeaurora/snapcam/filter/ClearSightNativeEngine.java:345-351 | adding then subtracting the left edge in Java int arithmetic gives the width back |
| ClearSight.Engine.constructor | src/org/codeaurora/snapcam/filter/ClearSightNativeEngine.java:67-78 | a new engine has no references, no results, empty source lists and has closed nothing |
| ClearSight.Engine.ImageCount | src/org/codeaurora/snapcam/filter/ClearSightNativeEngine.java:177-179 | the length of the colour or mono source list |
| ClearSight.Engine.HasReferenceImage | src/org/codeaurora/snapcam/filter/ClearSightNativeEngine.java:173-175 | true exactly when that sensor's source list is not empty |
| ClearSight.Engine.SetReferenceImage | src/org/codeaurora/snapcam/filter/ClearSightNativeEngine.java:134-171 | the old reference is closed; a new non-null reference is appended to its list, and the colour one sets the sizes and strides; nothing else changes |
| ClearSight.Engine.SetReferenceResult | src/org/codeaurora/snapcam/filter/ClearSightNativeEngine.java:119-132 | only the chosen sensor's result changes |
| ClearSight.Engine.Reset | src/org/codeaurora/snapcam/filter/ClearSightNativeEngine.java:110-117 | both lists and results empty, both references closed in colour-then-mono order and cleared |
| ClearSight.Engine.RegisterImage | src/org/codeaurora/snapcam/filter/ClearSightNativeEngine.java:189-226 | refused with nothing changed while the list is empty; otherwise the native answer, a successful registration appends exactly one entry, and the image is closed either way |
| ClearSight.Engine.InitProcessImage | src/org/codeaurora/snapcam/filter/ClearSightNativeEngine.java:228-279 | refused exactly when the lists differ in length; with equal lengths, a null dereference exactly when the colour reference, the mono reference or the mono result is missing; otherwise the native answer, given the pair count, the exposure in milliseconds and the mono result's ISO |
| ClearSight.ProcessImage | src/org/codeaurora/snapcam/filter/ClearSightNativeEngine.java:281-300 | an image exactly when the native call succeeds, with the ROI built from the four ints it filled in |
| ClearSight.SensorCalibrationAt | src/org/codeaurora/snapcam/filter/ClearSightNativeEngine.java:375-386 | a sensor record is read exactly when its 16 bytes are there, field by field in order, and the read position advances by 16 |
| ClearSight.SensorCalibrationFromBytes | src/org/codeaurora/snapcam/filter/ClearSightNativeEngine.java:370-373 | read big-endian, the Java ByteBuffer's default order; None exactly when the bytes are too short |
| ClearSight.SystemCalibrationAt | src/org/codeaurora/snapcam/filter/ClearSightNativeEngine.java:470-494 | the system record is read exactly when its bytes are there: the version, the main and aux sensor records, 9 rotation and 32 surface floats, then the short and float fields in order |
| ClearSight.SystemCalibrationFromBytes | src/org/codeaurora/snapcam/filter/ClearSightNativeEngine.java:447-468 | null gives null; a short blob is the underflow exception; otherwise the record read little-endian from offset 0 |
| Refocus.Signed | src/com/android/camera/RefocusActivity.java:350 | a map byte as the signed Java byte it is read as, in [-128, 128), unchanged below 128 |
| Refocus.Prefix | src/com/android/camera/RefocusActivity.java:367-375 | the value built from the first bytes of a big-endian int is never negative |
| Refocus.Int32Shift | src/com/android/camera/RefocusActivity.java:369-372 | shifting left by 8 after each byte commutes with the 32-bit wrap-around |
| Refocus.ReadInteger | src/com/android/camera/RefocusActivity.java:367-375 | readInteger is the big-endian 32-bit int at the offset |
| Refocus.ReadTrailer | src/com/android/camera/RefocusActivity.java:293-313 | a file of 25 bytes or fewer fails with a 0 by 0 map; otherwise width and height are the big-endian ints at len-24 and len-20; an accepted map has flag 0 and width*height+25 within the length, in Java int arithmetic |
| Refocus.TrailerAccepted | src/com/android/camera/RefocusActivity.java:304-312 | a flag 0 with non-negative dimensions whose area fits the file is accepted |
| Refocus.WindowAt | src/com/android/camera/RefocusActivity.java:343-346 | the 61-cell window around the point, clipped to the map: it starts at or after 0, ends within the width and height, and is at most 61 wide and high |
| Refocus.CellLevel | src/com/android/camera/RefocusActivity.java:350-351 | a counted level is in [0, 128); a cell outside the data or with a negative byte throws |
| Refocus.ColumnLevels | src/com/android/camera/RefocusActivity.java:349-352 | every level counted for one column is in [0, 128) |
| Refocus.WindowLevels | src/com/android/camera/RefocusActivity.java:348-353 | every level counted over the window is in [0, 128) |
| Refocus.ModeUnique | src/com/android/camera/RefocusActivity.java:355-364 | the depth the final scan settles on is unique: no two depths are both the mode |
| Refocus.ModeOccurs | src/com/android/camera/RefocusActivity.java:355-364 | a mode of a non-empty window is a level that occurs in it |
| Refocus.CountSnoc | src/com/android/camera/RefocusActivity.java:351 | appending a level adds one to its count and leaves the others alone |
| Refocus.Bump | src/com/android/camera/RefocusActivity.java:351 | hist[level]++ keeps the histogram equal to the counts of the levels seen |
| Refocus.DepthMap.constructor | src/com/android/camera/RefocusActivity.java:293-313 | the map holds the file's bytes and the trailer ReadTrailer reads from them |
| Refocus.DepthMap.AddColumn | src/com/android/camera/RefocusActivity.java:349-352 | one column's counts are added to the histogram; false exactly where the source throws |
| Refocus.DepthMap.NoneStays | src/com/android/camera/RefocusActivity.java:348-353 | once a column throws, the whole column throws |
| Refocus.DepthMap.WindowNoneStays | src/com/android/camera/RefocusActivity.java:348-353 | once a column throws, the whole window throws |
| Refocus.DepthMap.Histogram | src/com/android/camera/RefocusActivity.java:338-353 | a fresh 256-entry histogram that counts exactly the window's levels, failing exactly when a cell throws |
| Refocus.DepthMap.GetDepth | src/com/android/camera/RefocusActivity.java:315-365 | a failed map or a point past 1 gives the all-in-focus index; a window with a bad cell throws; otherwise the most frequent level, the smallest on a tie, and the all-in-focus index for an empty window |
| Refocus.MostFrequent | src/com/android/camera/RefocusActivity.java:355-364 | the final scan returns the mode of the counted levels |
| Refocus.Viewer.constructor | src/com/android/camera/RefocusActivity.java:86-88 | nothing is current or requested, and no load has run |
| Refocus.Viewer.SetCurrentImage | src/com/android/camera/RefocusActivity.java:192-204 | only a depth in [0, 6) other than the last request is taken; it cancels a running load and starts one unless the image is already current |
| Refocus.Viewer.AllInFocus | src/com/android/camera/RefocusActivity.java:206-209 | the all-in-focus image becomes current unless it is already requested |
| Bestpicture.InitialSelection | src/com/android/camera/BestpictureActivity.java:93-102 | ten flags |
| Bestpicture.InitialSelectionChosen | src/com/android/camera/BestpictureActivity.java:93-102 | a new selection holds image 0 only, and toggling image 0 alone puts it back |
| Bestpicture.Toggled | src/com/android/camera/BestpictureActivity.java:132-147 | only the toggled flag can change; it ends up set exactly when it was clear or no other image is chosen, so at least one image is always chosen |
| Bestpicture.ToggleTwice | src/com/android/camera/BestpictureActivity.java:132-147 | with another image chosen, toggling the same image twice restores the selection |
| Bestpicture.ImageItems.constructor | src/com/android/camera/BestpictureActivity.java:93-104 | a fresh ten-flag array with image 0 chosen |
| Bestpicture.ImageItems.ToggleImageSelection | src/com/android/camera/BestpictureActivity.java:132-147 | the array becomes Toggled of its old contents, and some image stays chosen |
| Bestpicture.PowBelowDouble | src/com/android/camera/BestpictureActivity.java:216-221 | a power of two below twice another power of two is at most it |
| Bestpicture.HalvesTwice | src/com/android/camera/BestpictureActivity.java:218 | a size that still halves past the limit at sample s is at least 2s |
| Bestpicture.LoaderSampleSize | src/com/android/camera/BestpictureActivity.java:214-221 | a power of two; 1 when the image fits the screen; otherwise the first power of two at which the image no longer halves past both limits |
| PanoView.Red | src/com/android/camera/ui/PanoCaptureProcessView.java:446 | the red channel of an ARGB pixel, in [0, 256) |
| PanoView.Green | src/com/android/camera/ui/PanoCaptureProcessView.java:447 | the green channel, in [0, 256) |
| PanoView.Blue | src/com/android/camera/ui/PanoCaptureProcessView.java:448 | the blue channel, in [0, 256) |
| PanoView.Clamp | src/com/android/camera/ui/PanoCaptureProcessView.java:454-458 | the clamp to [0, 255] before each byte is stored leaves in-range values alone |
| PanoView.StudioSwing | src/com/android/camera/ui/PanoCaptureProcessView.java:450-452 | for 8-bit channels Y lies in [16, 235] and U and V in [16, 240] |
| PanoView.ClampsNeverFire | src/com/android/camera/ui/PanoCaptureProcessView.java:450-458 | so the clamps never change a stored Y, U or V |
| PanoView.Nv21Size | src/com/android/camera/ui/PanoCaptureProcessView.java:362 | the NV21 buffer holds at least the w*h luma bytes |
| PanoView.Nv21Pair | src/com/android/camera/ui/PanoCaptureProcessView.java:455-458 | each 2x2 block's chroma pair is V then U of its top-left pixel, at the block's place in the interleaved plane |
| PanoView.EvenOffset | src/com/android/camera/ui/PanoCaptureProcessView.java:455 | with an even width the pixel index and the column have the same parity |
| PanoView.RowPairsStep | src/com/android/camera/ui/PanoCaptureProcessView.java:455-458 | the chroma cursor advances by 2 on even rows at even columns only |
| PanoView.ChromaCursor | src/com/android/camera/ui/PanoCaptureProcessView.java:436-458 | the running chroma cursor u is the block's place in the chroma plane, and stays inside it |
| PanoView.PixelPair | src/com/android/camera/ui/PanoCaptureProcessView.java:455-458 | at an even row and column the two chroma bytes written are the pixel's V and U |
| PanoView.StorePixel | src/com/android/camera/ui/PanoCaptureProcessView.java:444-460 | one pixel's luma, and at even row and column its V and U, are stored, keeping every written byte equal to the NV21 image |
| PanoView.NextRow | src/com/android/camera/ui/PanoCaptureProcessView.java:441-442 | the luma and chroma cursors at the end of one row are those at the start of the next |
| PanoView.RowStep | src/com/android/camera/ui/PanoCaptureProcessView.java:441-442 | both cursors stay inside their planes from row to row |
| PanoView.ConvertRow | src/com/android/camera/ui/PanoCaptureProcessView.java:442-461 | one row of the conversion fills exactly that row's bytes of the NV21 image |
| PanoView.BitmapToDataNV21 | src/com/android/camera/ui/PanoCaptureProcessView.java:432-462 | every byte of the buffer is the NV21 image of the pixels: luma per pixel, then V,U per 2x2 block |
| PanoView.EvenDown | src/com/android/camera/ui/PanoCaptureProcessView.java:358-361 | / 2 * 2 rounds to an even number |
| PanoView.PanoPreviewSize | src/com/android/camera/ui/PanoCaptureProcessView.java:357-361 | all four sizes are even; the thumbnails fit MAX_PANO_FRAME+2 times across the preview, and the final picture is the preview size rounded down to even |
| PanoView.ThumbBufferFits | src/com/android/camera/ui/PanoCaptureProcessView.java:362-363 | the byte buffer allocated, w*h*3/2, is exactly the NV21 size of the thumbnail |
| PanoView.Picture.constructor | src/com/android/camera/ui/PanoCaptureProcessView.java:169-178 | a picture takes the frame's position, size and bitmap size, drawn at offset 0 |
| PanoView.Picture.BlendHorizontal | src/com/android/camera/ui/PanoCaptureProcessView.java:812-927 | a frame on the wrong side is skipped, keeping the strip; otherwise the strip grows by the frame's width less the overlap, leftIn is clamped inside the bitmap, and the strip takes the frame's position |
| PanoView.Picture.BlendVertical | src/com/android/camera/ui/PanoCaptureProcessView.java:869-927 | the same placement along the vertical axis for up and down sweeps |
| PanoView.Place | src/com/android/camera/ui/PanoCaptureProcessView.java:835-840 | the two clamps keep a value already in [0, bound], and otherwise give a value in [0, bound] when the bound is not negative |
| PanoView.CaptureView.constructor | src/com/android/camera/ui/PanoCaptureProcessView.java:95-150 | a new view is inactive with orientation 0 and no completion length |
| PanoView.CaptureView.SetOrientation | src/com/android/camera/ui/PanoCaptureProcessView.java:946-952 | while a panorama is being taken only the pending orientation changes; otherwise both change |
| PanoView.CaptureView.NotTakenWhenUnknown | src/com/android/camera/ui/PanoCaptureProcessView.java:796-810 | a panorama whose completion length is 0 or whose direction is not known is never complete |
| WidePano.Diff | src/com/android/camera/WideAnglePanoramaModule.java:313-320 | the distance of a size's area from 960x720 is never negative |
| WidePano.BestUnique | src/com/android/camera/WideAnglePanoramaModule.java:305-329 | the search's choice is unique |
| WidePano.BestHonoursFilters | src/com/android/camera/WideAnglePanoramaModule.java:313-319 | the chosen size obeys the "not larger than 960x720" and "4:3" filters it was searched with, and has a non-zero area |
| WidePano.CaptureOrientation | src/com/android/camera/WideAnglePanoramaModule.java:471-487 | the orientation of the finished panorama, with Java's remainder on a negative left operand |
| WidePano.CaptureOrientationRange | src/com/android/camera/WideAnglePanoramaModule.java:478-486 | the back camera's orientation is in [0, 360) and the front camera's in (-360, 0], each equal to the intended angle modulo 360 |
| WidePano.FrontOrientationNegative | src/com/android/camera/WideAnglePanoramaModule.java:482 | a front camera at 270 degrees with the device at 0 gives -270, not 90 |
| WidePano.DecodeMosaic | src/com/android/camera/WideAnglePanoramaModule.java:858-869 | fewer than 8 bytes throw; the width and height are the big-endian ints in the last 8 bytes, and a zero in either fails the capture |
| WidePano.ShiftedSum | src/com/android/camera/WideAnglePanoramaModule.java:861-864 | the shift-and-mask sum is the big-endian 32-bit int at the offset |
| WidePano.Module.constructor | src/com/android/camera/WideAnglePanoramaModule.java:103-140 | a new module is in preview and not capturing |
| WidePano.Module.FindBestPreviewSize | src/com/android/camera/WideAnglePanoramaModule.java:305-329 | found exactly when some size passes the filters and is nearer than 960x720 pixels; the preview size is then the unique best one, and otherwise unchanged |
| WidePano.Module.SetupPreviewSize | src/com/android/camera/WideAnglePanoramaModule.java:331-340 | the best 4:3 size no larger than 960x720, else the best size no larger than it, else the best size of any kind |
| WidePano.Module.UpdateState | src/com/android/camera/WideAnglePanoramaModule.java:960-974 | the state is recorded; preview, prepare, success and failure stop the capture, capturing starts it, and any other state leaves it alone |
| WidePano.CandidatesWiden | src/com/android/camera/WideAnglePanoramaModule.java:331-338 | each fallback search finds a size whenever the stricter one did |
| PhotoModule.Pop | src/com/android/camera/PhotoModule.java:1764-1771 | the head of a non-empty queue is taken off with the rest kept in order; an empty queue gives null |
| PhotoModule.Drain | src/com/android/camera/PhotoModule.java:1764-1771 | draining returns as many entries as were queued |
| PhotoModule.DrainInOrder | src/com/android/camera/PhotoModule.java:1750-1771 | names come out in the order they were queued |
| PhotoModule.PopAfterAdd | src/com/android/camera/PhotoModule.java:1750-1771 | adding to a non-empty queue does not change which name comes out next |
| PhotoModule.NamedImages.constructor | src/com/android/camera/PhotoModule.java:1746-1748 | a new queue is empty |
| PhotoModule.NamedImages.NameNewImage | src/com/android/camera/PhotoModule.java:1750-1762 | the new name, with its date, is appended |
| PhotoModule.NamedImages.GetNextNameEntity | src/com/android/camera/PhotoModule.java:1764-1771 | the queue and result are Pop of the old queue |
| PhotoModule.Pow2 | src/com/android/camera/PhotoModule.java:1269-1270 | the weight of a shift is at least 1 |
| PhotoModule.ShiftLeft | src/com/android/camera/PhotoModule.java:1270 | a shifted byte is a Java int |
| PhotoModule.ByteWeights | src/com/android/camera/PhotoModule.java:1269-1270 | the four shifts are by 0, 8, 16 and 24 bits |
| PhotoModule.ByteTermsAll | src/com/android/camera/PhotoModule.java:1266-1273 | the four shifted bytes add up to the unsigned little-endian value |
| PhotoModule.WrappedSum | src/com/android/camera/PhotoModule.java:1270 | the running sum in Java int arithmetic wraps only once at the end |
| PhotoModule.ByteToInt | src/com/android/camera/PhotoModule.java:1266-1273 | byteToInt is the little-endian 32-bit int at the offset |
| PhotoModule.ReadMetaData | src/com/android/camera/PhotoModule.java:1195-1200 | a record of 12 bytes or more gives the three little-endian ints, type, length and value; a shorter one is ignored |
| PhotoModule.QualityLevel | src/com/android/camera/PhotoModule.java:5285-5289 | exactly "normal", "fine" and "superfine" are named levels |
| PhotoModule.GetQualityNumber | src/com/android/camera/PhotoModule.java:5293-5309 | a number is returned when it is in [0, 100], otherwise 85; a named level goes through the camera profile; anything else is 85 |
| PhotoModule.QualityPercentRoundTrip | src/com/android/camera/PhotoModule.java:5295-5297 | the decimal string of a percentage gives that percentage back |
| PhotoModule.QualityOutOfRange | src/com/android/camera/PhotoModule.java:5296-5299 | a number outside [0, 100] gives the default 85 |
| PhotoModule.QualityNamesUseProfile | src/com/android/camera/PhotoModule.java:5286-5308 | normal, fine and superfine use the profile's low, medium and high qualities |
| PhotoModule.QualityInRange | src/com/android/camera/PhotoModule.java:5293-5309 | with a profile that answers in [0, 100], every quality number is in [0, 100] |
| PhotoModule.LastMatch | src/com/android/camera/PhotoModule.java:3923-3928 | the last index below n holding the name, with no match after it, or -1 |
| PhotoModule.EstimateJpegFileSize | src/com/android/camera/PhotoModule.java:3918-3935 | 0 when no ratio matches or the ratio is 0; otherwise width*height*3 / ratio, in Java int arithmetic |
| PhotoModule.EstimateExact | src/com/android/camera/PhotoModule.java:3934 | without overflow the estimate is the exact quotient |
| PhotoModule.DivLe | src/com/android/camera/PhotoModule.java:3934 | a quotient by a positive ratio is no larger than the dividend |
| PhotoModule.RemainingPhotos | src/com/android/camera/PhotoModule.java:2715-2723 | -1 when the estimate is 0, and always a Java int |
| PhotoModule.RemainingPhotosFit | src/com/android/camera/PhotoModule.java:2716-2719 | with room above the threshold, the count is the number of whole estimates that fit in it |
| PhotoModule.AdjustedFlipCases | src/com/android/camera/PhotoModule.java:3948-3964 | at 90 and 270 degrees codes 1 and 2 swap; other codes, and other rotations, are unchanged |
| PhotoModule.AdjustedFlipInvolutive | src/com/android/camera/PhotoModule.java:3948-3964 | adjusting twice gives the code back |
| PhotoModule.SetIfSupported | src/com/android/camera/PhotoModule.java:3968-3977 | the key is set to the mode exactly when the mode is in the supported list |
| PhotoModule.SetFlipValue | src/com/android/camera/PhotoModule.java:3937-3978 | the preview, video and picture flips are set, in that order, from the rotation-adjusted codes, each only when supported |
| PhotoModule.RotatedFlipMode | src/com/android/camera/PhotoModule.java:3948-3966 | at 90 and 270 degrees code 1 becomes the vertical flip and code 2 the horizontal one |
| PhotoModule.ParameterUpdates.constructor | src/com/android/camera/PhotoModule.java:140-210 | nothing pending, no restart requested, nothing applied |
| PhotoModule.ParameterUpdates.SetCameraParametersWhenIdle | src/com/android/camera/PhotoModule.java:4367-4392 | with no device the set is dropped; when idle the accumulated set is applied, the preview restarted at most once if asked and not stopped, and the set cleared; otherwise the bits wait and a retry is queued |
| PhotoModule.AccumulateKeepsBits | src/com/android/camera/PhotoModule.java:4368 | ORing in keeps every earlier and new bit, and UPDATE_PARAM_ALL covers all |
| VideoModule.DefaultHashMap.constructor | src/com/android/camera/VideoModule.java:284-285 | a new table is empty with no default |
| VideoModule.DefaultHashMap.Put | src/com/android/camera/VideoModule.java:284 | put maps the key to the value and keeps the default |
| VideoModule.DefaultHashMap.PutDefault | src/com/android/camera/VideoModule.java:287-289 | putDefault sets the default and keeps the entries |
| VideoModule.DefaultHashMap.Get | src/com/android/camera/VideoModule.java:291-295 | a present key gives its value, an absent one the default |
| VideoModule.DefaultHashMap.GetKey | src/com/android/camera/VideoModule.java:296-307 | a key is returned only if it maps to the value, and null exactly when no key does |
| VideoModule.HighSpeedVideoEncoderBitRate | src/com/android/camera/VideoModule.java:1460-1470 | the table's rate for the key "WxH:rate" when present; otherwise the profile's bit rate times targetRate / frameRate in Java int arithmetic |
| VideoModule.BitRateScales | src/com/android/camera/VideoModule.java:1467 | without a table entry, a target k times the frame rate gives k times the bit rate |
| VideoModule.BitRateBelowFrameRate | src/com/android/camera/VideoModule.java:1467 | without a table entry, a target below the frame rate gives bit rate 0 |
| VideoModule.DigitsFree | src/com/android/camera/VideoModule.java:1462 | a decimal string holds no separator character |
| VideoModule.TwoPieces | src/com/android/camera/VideoModule.java:1462 | a string with one separator splits into the two parts around it |
| VideoModule.KeyPieces | src/com/android/camera/VideoModule.java:1462 | the bit-rate key splits at 'x' into width and "height:rate", and that at ':' into height and rate |
| VideoModule.BitRateKeyInjective | src/com/android/camera/VideoModule.java:1462 | different sizes or rates never share a bit-rate key |
| VideoModule.DigitsPositive | src/com/android/camera/VideoModule.java:2626-2630 | a digit string without a leading zero has a value of at least 1 |
| VideoModule.CanonicalDigits | src/com/android/camera/VideoModule.java:2626-2630 | such a string is the decimal form of its value |
| VideoModule.IsDigitStringExactly | src/com/android/camera/VideoModule.java:2626-2630 | isDigit accepts exactly the decimal forms of the positive numbers |
| VideoModule.DurationMinutes | src/com/android/camera/VideoModule.java:836-846 | the stored setting when it parses as an int, otherwise the default setting |
| VideoModule.MaxVideoDurationInMs | src/com/android/camera/VideoModule.java:847-853 | -1 minutes gives 30 seconds; the result is a Java int |
| VideoModule.DurationExact | src/com/android/camera/VideoModule.java:852 | without overflow the limit is exactly 60000 ms per minute |
| VideoModule.AdjustedFlipZero | src/com/android/camera/VideoModule.java:2233-2266 | the 90/270-degree swap never turns a zero code into a non-zero one or back |
| VideoModule.SetFlipValue | src/com/android/camera/VideoModule.java:2222-2271 | the three flips are set as in the photo module, and flipping is enabled exactly when some code is not 0 |
| VideoModule.Recorder.constructor | src/com/android/camera/VideoModule.java:171-199 | no flag is raised and the preview is stopped |
| VideoModule.Recorder.IsPreviewReady | src/com/android/camera/VideoModule.java:766-771 | ready exactly when no preview start or stop is pending |
| VideoModule.Recorder.IsRecorderReady | src/com/android/camera/VideoModule.java:773-778 | ready exactly when no recording start or stop is pending |
| VideoModule.Recorder.StopPreview | src/com/android/camera/VideoModule.java:1261-1274 | the preview is stopped and the stop flag lowered; the other flags are kept |
| VideoModule.Recorder.StartPreview | src/com/android/camera/VideoModule.java:1215-1254 | without a device, preferences or focus the flag is lowered and nothing else changes; a running preview is stopped first; a device failure throws with the flag still raised and the preview stopped; otherwise the preview runs and the flag is lowered |
| CameraSettings.NonEmptyCons | src/com/android/camera/CameraSettings.java:628-631 | a non-empty token stays in front when empty pieces are dropped |
| CameraSettings.TokensSkip | src/com/android/camera/CameraSettings.java:628-631 | a leading comma produces no token |
| CameraSettings.TokensTake | src/com/android/camera/CameraSettings.java:628-631 | the next token runs up to the next comma |
| CameraSettings.Split | src/com/android/camera/CameraSettings.java:624-634 | null stays null; otherwise the comma-separated tokens in order, with empty ones dropped, as StringTokenizer gives them |
| CameraSettings.TokensEmpty | src/com/android/camera/CameraSettings.java:628-631 | the empty string has no tokens |
| CameraSettings.SkipAt | src/com/android/camera/CameraSettings.java:628-631 | a comma at the cursor is skipped |
| CameraSettings.TokenAt | src/com/android/camera/CameraSettings.java:628-631 | at a non-comma, the token runs to the next comma or the end |
| CameraSettings.SplitJoin | src/com/android/camera/CameraSettings.java:624-634 | splitting the comma-join of non-empty, comma-free strings gives them back |
| CameraSettings.Parameters.constructor | src/com/android/camera/CameraSettings.java:425-437 | no picture size is set yet |
| CameraSettings.SetCameraPictureSize | src/com/android/camera/CameraSettings.java:425-438 | without an 'x' nothing happens and false is returned; each side that is not a number throws; otherwise the size is set, and true returned, exactly when it is supported |
| CameraSettings.FindSize | src/com/android/camera/CameraSettings.java:431-436 | the scan finds the size exactly when it is in the list |
| CameraSettings.ReadVersion | src/com/android/camera/CameraSettings.java:1135-1164 | a version stored as an int is read, anything else reads as 0 |
| CameraSettings.GetString | src/com/android/camera/CameraSettings.java:1175 | a missing key gives the default; a value stored with another type throws |
| CameraSettings.GetBoolean | src/com/android/camera/CameraSettings.java:1188 | as GetString, for booleans |
| CameraSettings.UpgradeOldVersion | src/com/android/camera/CameraSettings.java:1158-1202 | version 5 is left alone; from 0 or 1 the JPEG quality 65/75 becomes normal/fine and anything else the default, from 2 or below the location flag becomes on/none, from 3 or below the two old video keys are removed; then version 5 is written and no other key changes; a mistyped value throws |
| CameraSettings.UpgradeLocalPreferences | src/com/android/camera/CameraSettings.java:1134-1151 | the local version ends at 2; from version 1 the old video quality key is removed; at version 2 nothing changes, and no other key ever does |
| CameraSettings.UpgradeLocalIdempotent | src/com/android/camera/CameraSettings.java:1134-1151 | upgrading twice is the same as once |
| CameraSettings.ReadPreferredCameraId | src/com/android/camera/CameraSettings.java:1219-1223 | a parsed camera id is a Java int |
| CameraSettings.UpgradeCameraId | src/com/android/camera/CameraSettings.java:1204-1217 | an id outside [0, number of cameras) becomes 0, any other reads the same after the rewrite, no other key changes, and an unreadable id throws |
| CameraSettings.UpgradeCameraIdIdempotent | src/com/android/camera/CameraSettings.java:1204-1217 | upgrading the id twice is the same as once |
| CameraSettings.GetVideoDurationInMillis | src/com/android/camera/CameraSettings.java:1387-1394 | MMS quality gives the low profile's duration in ms, YouTube 15 minutes, anything else 0 (no limit) |
| CameraSettings.FilterUnsupported | src/com/android/camera/CameraSettings.java:1097 | the options kept are exactly the listed options whose values are supported |
| CameraSettings.RemovePreference | src/com/android/camera/CameraSettings.java:1070-1085 | true exactly when the key is on the screen; the first preference with it is then removed and the rest kept in order |
| CameraSettings.FirstIndex | src/com/android/camera/CameraSettings.java:1071-1082 | the first position holding the key, or -1 when none does |
| CameraSettings.ResetIfInvalid | src/com/android/camera/CameraSettings.java:1118-1124 | a value that is an option is kept; otherwise it becomes the first option's value |
| CameraSettings.FilterUnsupportedOptions | src/com/android/camera/CameraSettings.java:1087-1105 | removed exactly when there is no support list, at most one supported value, or at most one option left; otherwise kept with only the supported options and a valid, supported value |
| SettingsManager.Lookup | src/com/android/camera/SettingsManager.java:447-452 | an unknown key gives nothing; otherwise the override when there is one, else the value |
| SettingsManager.DisabledKeys | src/com/android/camera/SettingsManager.java:229-239 | exactly the keys whose value carries an override |
| SettingsManager.StateKeysAppend | src/com/android/camera/SettingsManager.java:346-407 | the keys of two appended change lists are the union of their keys |
| SettingsManager.DependencyMapForKey | src/com/android/camera/SettingsManager.java:1399-1407 | present exactly when the table exists and has the key, and then it is that key's map |
| SettingsManager.DependencyKey | src/com/android/camera/SettingsManager.java:1423-1426 | the value itself when the map has it, else "default" |
| SettingsManager.DependencyListFor | src/com/android/camera/SettingsManager.java:1409-1421 | the list under the value, else under "default", else nothing; never present without the key's map |
| SettingsManager.CheckDependency | src/com/android/camera/SettingsManager.java:338-410 | no change leaves values and back-references as they were; a change always lists the changed key |
| SettingsManager.CheckDependencySameValue | src/com/android/camera/SettingsManager.java:342-344 | a preference showing the value already recorded changes nothing |
| SettingsManager.CheckDependencyRecordsValue | src/com/android/camera/SettingsManager.java:346-349 | a real change records the new value without override, unless the new list itself overrides the changed key |
| SettingsManager.CheckDependencyOverrides | src/com/android/camera/SettingsManager.java:355-409 | turn-on keys that something depends on lose their override, turn-off keys without one take the new list's value, and the back-references drop or gain the changed key accordingly |
| SettingsManager.KeysMinus | src/com/android/camera/SettingsManager.java:360-376 | the key set built by adding one list's keys and removing the other's is their difference |
| SettingsManager.TurnOnStep | src/com/android/camera/SettingsManager.java:378-387 | clearing one more turn-on key changes only that key |
| SettingsManager.ClearOverrides | src/com/android/camera/SettingsManager.java:378-387 | the values after the turn-on loop, and exactly the re-enabled keys reported with their new values |
| SettingsManager.TurnOffStep | src/com/android/camera/SettingsManager.java:389-407 | forcing one more turn-off key changes only that key |
| SettingsManager.ForceOverrides | src/com/android/camera/SettingsManager.java:389-407 | the values after the turn-off loop, and exactly the keys that took an override reported with their new values |
| SettingsManager.RemoveStep | src/com/android/camera/SettingsManager.java:413-417 | removing the key from one more set changes only that set |
| SettingsManager.AddStep | src/com/android/camera/SettingsManager.java:418-426 | adding the key to one more set (created when missing) changes only that set |
| SettingsManager.UpdateBackDependency | src/com/android/camera/SettingsManager.java:412-427 | the key leaves every removed key's set and joins every added key's set, nothing else changes |
| SettingsManager.Manager.constructor | src/com/android/camera/SettingsManager.java:151-162 | the manager holds the given preferences, values, back-references and dependency table |
| SettingsManager.Manager.GetValue | src/com/android/camera/SettingsManager.java:447-452 | as Lookup, on the manager's values |
| SettingsManager.Manager.IsOverriden | src/com/android/camera/SettingsManager.java:483-486 | true exactly when the key is among the disabled keys |
| SettingsManager.Manager.GetDisabledList | src/com/android/camera/SettingsManager.java:229-239 | lists each key with an override exactly once, and no other |
| SettingsManager.Manager.CheckDependencyAndUpdate | src/com/android/camera/SettingsManager.java:338-410 | the new values and back-references are CheckDependency's; a change reports the changed key first, with its new value, then every key it re-enabled or overrode |
| SettingsManager.Manager.SetValue | src/com/android/camera/SettingsManager.java:488-501 | false and no change exactly when the key is missing or the value is not an entry; otherwise the value is stored and the dependencies propagated |
| SettingsManager.StepsBound | src/com/android/camera/SettingsManager.java:756-758 | an increment leaving more than ten steps is below the range's width |
| SettingsManager.ExposureIncrement | src/com/android/camera/SettingsManager.java:756-759 | the smallest increment of at least 1 that leaves at most ten steps |
| SettingsManager.Abs | src/com/android/camera/SettingsManager.java:762 | Math.abs |
| SettingsManager.ExposureStart | src/com/android/camera/SettingsManager.java:760-765 | a non-negative minimum is the start; a negative one is raised to the first value whose absolute value is a multiple of the increment |
| SettingsManager.StepValuesShape | src/com/android/camera/SettingsManager.java:767 | the steps are start, start + increment, … , each at most max, the next one past max, and there is one when start <= max |
| SettingsManager.MapIntsAppend | src/com/android/camera/SettingsManager.java:770-771 | converting two appended lists converts each |
| SettingsManager.StringsAppend | src/com/android/camera/SettingsManager.java:770-771 | as MapIntsAppend, for Integer.toString |
| SettingsManager.ExposureEntryValues | src/com/android/camera/SettingsManager.java:744-781 | no entries exactly for the range [0, 0]; otherwise the entry values are the decimal steps from the first start to max at the smallest increment |
| SettingsManager.StepStrings | src/com/android/camera/SettingsManager.java:769-777 | the entry values are the decimal forms of the steps, in order |
| SettingsManager.ShiftMod | src/com/android/camera/SettingsManager.java:1176 | stepping by 50 keeps the remainder modulo 50 |
| SettingsManager.IsoValuesExact | src/com/android/camera/SettingsManager.java:1171-1177 | the values are exactly the range's members above v that differ from v by multiples of 50, ascending |
| SettingsManager.GetSupportedIso | src/com/android/camera/SettingsManager.java:1166-1180 | "auto" followed by the decimal forms of the ISO values from 50 |
| SettingsManager.IsoListExact | src/com/android/camera/SettingsManager.java:1166-1180 | a value is listed exactly when it is a positive multiple of 50 in the sensitivity range, and the list ascends |
| SettingTranslation.Forward | src/com/android/camera/util/SettingTranslation.java:102-104 | every name put is in the forward table |
| SettingTranslation.Backward | src/com/android/camera/util/SettingTranslation.java:102-104 | every code put is in the reverse table |
| SettingTranslation.OnlyPut | src/com/android/camera/util/SettingTranslation.java:102-104 | the tables hold nothing that was not put |
| SettingTranslation.OneToOneFound | src/com/android/camera/util/SettingTranslation.java:102-115 | when no name and no code is put twice, every pair is found both ways |
| SettingTranslation.OneToOneRoundTrip | src/com/android/camera/util/SettingTranslation.java:102-115 | in such a table, name to code to name and code to name to code are the identity |
| SettingTranslation.TwoWayMap.constructor | src/com/android/camera/util/SettingTranslation.java:99-100 | both tables start empty |
| SettingTranslation.TwoWayMap.Put | src/com/android/camera/util/SettingTranslation.java:102-105 | the name maps to the code and the code back to the name, overriding earlier entries; nothing else changes |
| SettingTranslation.TwoWayMap.Get | src/com/android/camera/util/SettingTranslation.java:107-111 | the code put last under the name, or NOT_FOUND (-1) |
| SettingTranslation.TwoWayMap.GetName | src/com/android/camera/util/SettingTranslation.java:113-115 | the name put last under the code, or null |
| SettingTranslation.TwoWayMap.PutAll | src/com/android/camera/util/SettingTranslation.java:43-72 | a run of puts on an empty table leaves the tables Forward and Backward of the run |
| SettingTranslation.H265Code | src/com/android/camera/util/SettingTranslation.java:47-52 | the HEVC field when it exists and differs from DEFAULT, else the H265 field when it exists, else DEFAULT |
| SettingTranslation.VideoEncoderTable | src/com/android/camera/util/SettingTranslation.java:44-55 | the video table holds the six names in the initialiser's order, h265 under the code just described |
| SettingTranslation.AudioEncoderTable | src/com/android/camera/util/SettingTranslation.java:57-63 | the audio table holds the seven names in order |
| SettingTranslation.NoiseReductionTable | src/com/android/camera/util/SettingTranslation.java:65-71 | the noise-reduction table holds the five names in order |
| SettingTranslation.NeverPut | src/com/android/camera/util/SettingTranslation.java:107-115 | a name never put is NOT_FOUND and a code never put has no name |
| SettingTranslation.TranslatesBack | src/com/android/camera/util/SettingTranslation.java:102-115 | in a one-to-one table each put pair translates both ways |
| SettingTranslation.VideoTableWithHevc | src/com/android/camera/util/SettingTranslation.java:44-55 | with HEVC present the video table is one-to-one, h265 is HEVC and DEFAULT translates back to "default" |
| SettingTranslation.VideoTableWithoutHevc | src/com/android/camera/util/SettingTranslation.java:44-55 | without HEVC or H265, "default" and "h265" both map to DEFAULT, and DEFAULT translates back to "h265", the later put |
| SettingTranslation.AudioAndNoiseTables | src/com/android/camera/util/SettingTranslation.java:57-71 | the audio and noise tables are one-to-one, so every name survives the round trip |
| PersistUtil.StillmoreNumRequiredImages | src/com/android/camera/util/PersistUtil.java:130-134 | between 3 and 5: the configured count when it is in that range, else 5 |
| PersistUtil.Fraction | src/com/android/camera/util/PersistUtil.java:114-128 | the configured fraction when it is in [0, 1], else the fallback |
| PersistUtil.StillmoreBrColor | src/com/android/camera/util/PersistUtil.java:114-117 | a fraction in [0, 1], 0.5 when the configured one is outside |
| PersistUtil.StillmoreBrIntensity | src/com/android/camera/util/PersistUtil.java:119-122 | a fraction in [0, 1], 0.6 when the configured one is outside |
| PersistUtil.StillmoreSmoothingIntensity | src/com/android/camera/util/PersistUtil.java:124-128 | a fraction in [0, 1], 0 when the configured one is outside |
| PersistUtil.DualCameraSensorAlign | src/com/android/camera/util/PersistUtil.java:148-150 | vertical exactly when the property is 1 |
| PersistUtil.CameraPreviewSize | src/com/android/camera/util/PersistUtil.java:89-100 | no size exactly when the split gives fewer than two pieces; otherwise the first two pieces parsed, the rest ignored |
| PersistUtil.NoSeparatorNoSize | src/com/android/camera/util/PersistUtil.java:51-99 | a property without 'x', the empty default among them, gives no size |
| PersistUtil.NumberHasNoX | src/com/android/camera/util/PersistUtil.java:95-96 | a decimal number contains no 'x' |
| PersistUtil.SplitTwo | src/com/android/camera/util/PersistUtil.java:92 | splitting a, 'x', b and a tail starting with 'x' gives a and b first |
| PersistUtil.PreviewSizeOfText | src/com/android/camera/util/PersistUtil.java:89-100 | "WxH", with any further 'x' parts, gives the point (W, H) |
| PersistUtil.NonNumericPiece | src/com/android/camera/util/PersistUtil.java:95-96 | a piece that is not a number makes parseInt throw |
| PersistUtil.DefaultAnswers | src/com/android/camera/util/PersistUtil.java:45-75 | with every default: no preview size, 5 stillmore images, horizontal alignment, fractions 0.5 and 0.6 |

## Left out

The Android framework is left out: the camera device and its callbacks, views,
canvas drawing, threads and handlers, file and network I/O, and the native
libraries behind the depth, ClearSight and panorama engines. Values that the
source obtains from them (the clock, system properties, resource arrays,
camera characteristics, the results of native calls) are parameters or
fields of the model.

- Nv21Rotate.RotateBufAndMerge: requires even width and height. The source accepts odd sides, but NV21 samples chroma per 2x2 block, and with odd sides its frame size w*h*3/2 and its w/2 x h/2 chroma loops no longer describe one frame.
- Nv21Flip.FlipNV21: requires an even stride and an even gap, for the same 2x2 chroma sampling; the source does not check them.
- Nv21Flip.FlipNV21: the array the native code writes is the Java array itself, as when the runtime pins it (ART does). The source releases it with JNI_ABORT (image_util_jni.cpp:208), so on a runtime that hands out a copy the flip is discarded and the caller sees the frame unchanged; that case is not modelled.
- Nv21Rgb.NV21ToRgb: requires even width and height, for the same reason. The float coefficients are taken as exact decimal fractions.
- Nv21Resize.WellFormed: requires an even new width and height (the chroma rows and pairs are halves), which the source does not check. The float aspect test and product are done with exact integer arithmetic.
- Nv21Resize.ResizeImage: likewise writes the output array itself. The source releases newBuf with JNI_ABORT (image_util_jni.cpp:290), which on a runtime that copies array elements discards the resized frame; only the pinned case is modelled.
- Rotator.WellFormed: requires even width, height and padding, which the source does not check; each chroma pair is read at even x and y.
- Rotator.Launch: the closed form of the whole launch (LaunchRotates, LaunchAgrees) is proved only for 90 degrees, and for 270 degrees without padding. For 0 and 180 degrees, and for 270 degrees with padding, only LaunchWrites (every write of every kernel run) is given. Those layouts are transposed: the 0-degree luma target is x*H+y and the 180-degree one is (W-1-x-pad)*H+H-1-y. The kernel runs are taken one after another in row-major order, while the RenderScript forEach that launches them promises no order and may run them in parallel; for the corrected kernel ApplyAgrees makes the result independent of the order, and the as-written U/luma collision (SourceUOverwritesLuma) is then a race whose winner is not fixed.
- PanoView.BitmapToDataNV21: requires even width and height. The source decides whether to write chroma with `index % 2`, which equals the column parity only when the width is even.
- PanoView: the pixel blending of preview pictures and all canvas drawing are not modelled; only the placement arithmetic, orientation and capture state are.
- CameraUtil.NextPowerOf2: requires 1 <= n <= 2^30 in place of the IllegalArgumentException the source throws outside that range.
- CameraUtil.GenerateName: the `SimpleDateFormat` output for the date is the `formatted` parameter; the date format itself is not modelled.
- CameraUtil.ComputeSampleSize: only the rounding of the initial sample size is modelled; computeInitialSampleSize, which works on doubles with Math.sqrt and Math.ceil, is not part of this model.
- Floating-point ratios and coefficients (the resize aspect test, the NV21 to RGB coefficients) are exact rationals or integer cross-multiplication; float rounding is not modelled.
- CameraUtil.MillisecondToTimeString: negative durations are not modelled (the argument is a natural number).
- MpoTag: the ExifTag value handling is simplified; SetLong accepts only unsigned 32-bit values, and the component-count check of the generic setter is not modelled.
- MpoIfd: only a freshly created 16-bucket HashMap is modelled; the MPO IFDs hold far fewer than the 12 tags that would make it resize.
- MpoOutput.MpoOutputStream: flush() is not modelled; the output is an append-only byte sequence.
- MpoStream.ShiftedIndex: shifts the offsets of the MP Entry tag of the image being written, taken from a copy. The source mutates the primary image's tag in place (MpoOutputStream.java:320-333), so writing the same MpoData twice shifts twice; the model's `mpoData` is unchanged by a write.
- MpoOutput.UpdateIndexIfdOffsets: as ShiftedIndex, on the copy.
- MpoOutput.MpoOutputStream.WriteMpoFile: with no MpoData the source fails with a null dereference; the model returns false and changes nothing.
- MpoData: the pictures are assumed not to share IFD objects (SeparateIfds), as the source's constructors guarantee; aliasing between images is not modelled.
- ZslQueue.Queue.constructor: requires a positive buffer size.
- ZslQueue.Queue.TryToGetMatchingItem: requires the buffer, which onClose clears, to be present.
- ZslQueue.Queue.AddImage: beyond the closed case, the empty request list and the ageing of the requests, where the new image is stored is stated by StoreImage, and which request is served by ServePending and ProcessPendingRequest; the contract does not restate their composition.
- ZslQueue.Queue.AddMetadata: likewise, with StoreMeta; the timestamp -1 case is stated in full.
- ClearSight.Engine.RegisterImage: requires the reference image of the list being registered. The source fails with a null dereference when a reference was cleared while its list still holds entries.
- ClearSight: float fields are kept as their 32-bit patterns.
- DdmEngine: a missing blob (a null dereference in the source) is not modelled, and float fields are kept as their 32-bit patterns.
- Refocus.DepthMap.GetDepth: the float products that scale x and y to a map cell are outside the model; the scaled cell is the newX/newY parameter. The rotated-map cases are not modelled.
- Bestpicture.LoaderSampleSize: requires a non-negative screen size.
- WidePano.Diff: the area difference is computed without 32-bit wrap-around.
- VideoModule.DefaultHashMap.GetKey: which key is returned when several hold the value (HashMap iteration order) is not modelled, and null values are not modelled.
- VideoModule.HighSpeedVideoEncoderBitRate: requires a non-zero frame rate; the source would throw ArithmeticException.
- PhotoModule.EstimateJpegFileSize: requires no more ratios than quality names, as the two resource arrays provide.
- PhotoModule.NamedImages.NameNewImage: the file name (createJpegName) is the `title` parameter.
- PhotoModule.ParameterUpdates.SetCameraParametersWhenIdle: whether the preference update asks for a restart is the `preferenceRestarts` parameter.
- PhotoModule.SetFlipValue: the camera parameters are a map of strings.
- CameraSettings.RemovePreference: nested PreferenceGroups are flattened into one list of keys.
- CameraSettings.ResetIfInvalid: requires at least one entry, which filterUnsupportedOptions leaves.
- CameraSettings: the resource strings (the default JPEG quality, the MMS duration) are parameters.
- SettingsManager.ExposureEntryValues: the entry labels, formatted from the float step with DecimalFormat, are not modelled; only the entry values are.
- SettingsManager: a JSON value of the wrong type is not modelled; dependency lists map keys to strings.
- SettingsManager.Manager.CheckDependencyAndUpdate: of the reported states the contract gives the changed key's entry first and the set of keys reported; the order and values of the later entries, and the repeated entry the source reports when the changed key is itself turned on, are not stated.
- SettingTranslation: the MediaRecorder and CameraMetadata constants are given as their SDK values; whether the HEVC and H265 fields exist is a parameter.
- PersistUtil: a property the float or int parsers reject (a NumberFormatException at class load) is not modelled; Float.parseFloat gives the real number the property denotes.

## Findings

| source | as written | input that shows it | evidently intended | confidence | as-written member | corrected member |
|---|---|---|---|---|---|---|
| jni/image_util_jni.cpp:236-292 | the ratio R is computed from the width adjusted to the new aspect, which can exceed the old width, and the centred newWidth*R x newHeight*R window is read without checking that it fits | a 400 x 300 frame (stride 400) resized to 200 x 100: R = 3, the window is 600 bytes wide, and the first luma read is at index -100 | R lowered until the window lies inside the old frame | not executed | Nv21Resize.SourceRatio, Nv21Resize.WiderAspectReadsBeforeFrame | Nv21Resize.FittedRatio, Nv21Resize.FittedAgrees, Nv21Resize.LumaWindowInside, Nv21Resize.ResizeImage |
| rs/rotator.rs:76-81 | at 0 and 270 degrees the U byte is stored one byte before its V, in the previous pair's slot; for the first pair of a column run that is the last luma byte | a 4 x 2 frame at 0 degrees: the run for pixel (0, 0) stores U at offset 7, where the run for pixel (3, 1) stores its luma byte | U stored right after its V, as at 90 and 180 degrees | not executed | Rotator.SourceWrites, Rotator.SourceUTarget, Rotator.SourceUBeforeV, Rotator.SourceUOverwritesLuma | Rotator.Writes, Rotator.CorrectedUAfterV, Rotator.Kernel, Rotator.Launch |
| src/com/android/camera/mpo/MpoOutputStream.java:179-217 | after two bytes are collected, `getShort()` reads at position 2, so the EOI test looks at the stale bytes 2 and 3 of the buffer instead of the two bytes just read | the 4-byte image SOI EOI: the 16-byte APP2 segment is written between SOI and EOI, and EOI is copied as image data | an EOI where a marker is expected is copied and ends the image | not executed | MpoStream.Run (with asWritten set), MpoWriteFacts.StaleEoiCheck, MpoWriteFacts.SoiEoiAsWritten | MpoWriteFacts.EoiEnds, MpoWriteFacts.SoiEoiIntended, MpoOutput.MpoOutputStream.Write, MpoOutput.MpoOutputStream.WriteMpoFile |
| src/com/android/camera/imageprocessor/ZSLQueue.java:168-172 | the for-each loop removes expired requests from the list it iterates, so the iterator throws ConcurrentModificationException unless the removed request is one of the last two, and later expired requests stay | pending lifetimes [6, 0, 0] throw; [6, 6] keeps one expired request | every expired request removed, the others kept in order | not executed | ZslQueue.SourcePrune, ZslQueue.SourcePruneThrows, ZslQueue.SourcePruneKeepsExpired | ZslQueue.Prune, ZslQueue.PruneAgrees, ZslQueue.Queue.ProcessPendingRequest |
| src/com/android/camera/imageprocessor/PostProcessor.java:229-240 | when the fall-off list is full, the first item's image is closed together with the raw image of the item just added, which stays in the list | a list whose first item has raw image ra and whose added item has raw image rb: rb is closed, ra never is | the evicted item's images closed | not executed | PostProcessor.SourceEvictionCloses, PostProcessor.SourceClosesKeptRaw | PostProcessor.EvictionCloses, PostProcessor.EvictionClosesEvicted, PostProcessor.Processor.AddFallOffImage |
| src/com/android/camera/imageprocessor/PostProcessor.java:1145-1152 | the scaled region is clamped only when its width or height exceeds the new image's, so a region that starts inside can still end past the edge | region (100, 0, 300, 100), ratio 2, new image 120 x 100: the result (50, 0, 150, 50) ends at 150 | the right and bottom edges clamped to the new image | not executed | PostProcessor.SourceResizeRoi, PostProcessor.SourceRoiPastEdge | PostProcessor.ResizeRoi, PostProcessor.ResizeRoiAgreesAtOrigin |
| src/org/codeaurora/snapcam/filter/ClearSightNativeEngine.java:266-278 | the exposure time in nanoseconds is divided by 100000, though the comment and the log say milliseconds | a 1 ms exposure (1000000 ns) is passed as 10 | division by 1000000 | not executed | ClearSight.SourceExposureArg, ClearSight.SourceExposureTenfold | ClearSight.ExposureMs, ClearSight.ExposureMsExact, ClearSight.Engine.InitProcessImage |
