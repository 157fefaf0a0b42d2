# Label masks from VOC polygon annotations, and sequential renaming of a dataset split

This project models two pieces of a small semantic-segmentation data toolkit.

**The label-mask compositor (`visualize_voc_annotations.py`).**
- An annotation is a list of `<object>` elements. Each has a `<name>` and, optionally, a `<polygon>` element whose children are `x1, y1, x2, y2, ...`.
- The objects are grouped by class name, keeping document order.
- The mask starts as an all-zero grid.
- The classes are painted in the configured drawing order.
- Each polygon of a class is filled with that class's id from the class mapping. A later fill overwrites an earlier one.
- A class that is missing from the mapping is skipped.
- A polygon's vertices are read as `(x1, y1), (x2, y2), ...`. Reading stops at the first index that lacks either tag, and at index 99 at the latest.
- An object with no polygon, or with no vertices, draws nothing.

Which pixels a filled polygon covers is decided by the drawing library. The model receives it as a parameter, `covers(points, x, y)`. The mask is an `array2<int>` that the compositor changes in place, one polygon at a time.

**The colour lookup `visualize_mask`.** It turns a mask into an RGB image. Each pixel gets the colour configured for its id, or black when the id has no colour. The model follows the source's loop over the colour table, one `np.where` pass per entry.

**The sequential renamer (`clean_data.py`).**
- The `images` folder of a split is listed in sorted order. Each file's base name (the name without its extension) gets the number of its position: `train_1`, `train_2`, and so on.
- Every listed subfolder is then processed file by file. A file's base, with one `_colored` or `_visual` suffix removed, is looked up in that map. When it is found, the file is renamed to the new base plus its own extension.
- The file system is a snapshot: each subfolder name maps to its listing, and a missing folder is a missing key. The renames are returned as planned (old name, new name) pairs, together with the count of renamed files for each folder.

Modules:
- `Wrappers`: `Option`.
- `Strings`: Python's `str(n)`, `endswith`, `removesuffix`, `rfind` and string order.
- `Sorting`: `sorted` on strings.
- `PosixPath`: `os.path.splitext`.
- `VocAnnotations`: the compositor and the colour lookup.
- `CleanData`: the renamer.

The mask is a function of its inputs. `XmlPolygonToMask` returns exactly `MaskPixel(...)` at every pixel, so two calls with the same inputs give the same grid.

## Model

| member | source | states |
|---|---|---|
| VocAnnotations.GroupByName | visualize_voc_annotations.py:24-29 | the dictionary has one key per class name that occurs, and holds that class's objects in document order |
| VocAnnotations.FilterMembers | visualize_voc_annotations.py:24-29 | an object is in the group of a name exactly when it is one of the objects and carries that name |
| VocAnnotations.FilterAppend | visualize_voc_annotations.py:25-29 | grouping keeps document order: the group of a concatenation is the concatenation of the groups |
| VocAnnotations.PolygonPoints | visualize_voc_annotations.py:42-49 | the vertex list of a polygon element, read from index 1 on; what it holds is stated by `PolygonPointsRun` |
| VocAnnotations.ExtractPoints | visualize_voc_annotations.py:42-49 | the vertex loop computes exactly the vertex list `PolygonPoints` |
| VocAnnotations.PolygonPointsRun | visualize_voc_annotations.py:42-49 | the j-th point is (xj, yj) with both tags present; there are at most 99 points; reading stops at the first index lacking a tag |
| VocAnnotations.PolygonPointsStep | visualize_voc_annotations.py:43-49 | reading index i either appends vertex i (both tags present) or ends the list with i - 1 points |
| VocAnnotations.GapTruncatesPolygon | visualize_voc_annotations.py:43-49 | with tags x1, y1, x2, y2, x4, y4 only the first two points are read |
| VocAnnotations.UnmappedClassDrawsNothing | visualize_voc_annotations.py:31-36 | a class in the drawing order that the mapping lacks contributes nothing, whatever its objects |
| VocAnnotations.StrokeComplete | visualize_voc_annotations.py:31-52 | every object with vertices, of a mapped class in the drawing order, is filled with its class's id |
| VocAnnotations.StrokeOrigin | visualize_voc_annotations.py:31-52 | every fill comes from such an object and uses its class's id |
| VocAnnotations.ObjectStrokeIds | visualize_voc_annotations.py:39-52 | every fill of one class uses that class's id |
| VocAnnotations.Strokes | visualize_voc_annotations.py:31-52 | the fills in drawing order: class by class, each class's objects in document order, unmapped classes contributing none; characterised by `StrokeOrigin`, `StrokeComplete` and `StrokesAppend` |
| VocAnnotations.MaskPixel | visualize_voc_annotations.py:18-56 | the final value of one pixel: the paint of all fills over an all-zero start; characterised by `PaintLastCover`, `UncoveredPixelStaysZero` and `LaterClassWins` |
| VocAnnotations.StrokesAppend | visualize_voc_annotations.py:31-52 | drawing the classes of `a` and then those of `b` is drawing `a + b` |
| VocAnnotations.UndrawnObjectIsInvisible | visualize_voc_annotations.py:38-54 | an object without a polygon or vertices, or whose class is unmapped or not in the drawing order, can be removed without changing the fills |
| VocAnnotations.ClassStrokesWithout | visualize_voc_annotations.py:38-54 | removing an object that a class does not draw leaves that class's fills unchanged |
| VocAnnotations.PaintUncovered | visualize_voc_annotations.py:18-52 | a pixel that no fill covers keeps the initial 0 |
| VocAnnotations.PaintLastCover | visualize_voc_annotations.py:31-52 | painter's rule: a pixel shows the id of the last fill covering it |
| VocAnnotations.PaintMissing | visualize_voc_annotations.py:31-52 | fills that do not cover a pixel do not change it |
| VocAnnotations.UncoveredPixelStaysZero | visualize_voc_annotations.py:18-56 | a pixel covered by no drawn object is background (0) |
| VocAnnotations.LaterClassWins | visualize_voc_annotations.py:31-56 | a pixel covered by an object of class `order[i]`, and by no object of a later class, holds that class's id |
| VocAnnotations.RoadAndLane | visualize_voc_annotations.py:31-56 | road (1) drawn before lane (2): a pixel inside road is 2 inside the lane polygon and 1 elsewhere |
| VocAnnotations.FillPolygon | visualize_voc_annotations.py:52 | the fill sets exactly the covered pixels to the class id and leaves the rest unchanged |
| VocAnnotations.Snapshot | visualize_voc_annotations.py:56 | `np.array(mask_image)`: height rows of width values, equal to the image's pixels |
| VocAnnotations.DrawClass | visualize_voc_annotations.py:39-54 | drawing one class's objects moves the mask from the paint of the fills so far to the paint of those fills followed by this class's |
| VocAnnotations.XmlPolygonToMask | visualize_voc_annotations.py:8-56 | no annotation gives no mask; otherwise a height-by-width grid whose every pixel is `MaskPixel` of the objects, mapping, order and coverage |
| VocAnnotations.ColorOf | visualize_voc_annotations.py:58-65 | the colour of one id: its configured colour, or black (the `np.zeros` start) when it has none; `VisualizeMask` proves every pixel gets it |
| VocAnnotations.Where | visualize_voc_annotations.py:63-64 | one `np.where` pass: pixels with the id take the colour, all others keep their value |
| VocAnnotations.VisualizeMask | visualize_voc_annotations.py:58-65 | same shape as the mask; each pixel has the colour of its id, or black when the id has none |
| VocAnnotations.ZeroMaskIsSolid | visualize_voc_annotations.py:58-65 | the colouring of an all-zero mask is one solid colour: the background's, or black |
| Strings.Decimal | clean_data.py:25 | `str(counter)`: non-empty decimal digits, a single digit exactly below 10, a leading '0' only for 0 |
| Strings.DecimalValue | clean_data.py:25 | reading `str(counter)` back as a decimal numeral gives the counter |
| Strings.DecimalInjective | clean_data.py:25 | different counters have different spellings |
| Strings.RemoveSuffix | clean_data.py:48 | `removesuffix`: the result plus the suffix is the input when it ends with the suffix, else the input |
| Strings.RFind | clean_data.py:42 | the last index of the character, or -1 when it does not occur |
| Strings.LexLeTotal | clean_data.py:23 | any two names are ordered one way or the other |
| Strings.LexLeTransitive | clean_data.py:23 | the string order is transitive |
| Strings.LexLeAntisymmetric | clean_data.py:23 | names ordered both ways are equal |
| Sorting.Insert | clean_data.py:23 | inserting into a sorted list keeps it sorted and adds the element once |
| Sorting.SortStrings | clean_data.py:23 | `sorted(listing)`: sorted and a permutation of the listing |
| PosixPath.SplitExt | clean_data.py:42 | `os.path.splitext`: root plus extension is the name; the extension is empty, or a dot followed by no dot and no slash |
| PosixPath.SplitExtNoExtension | clean_data.py:24 | a name of leading dots (maybe none) and a dot-free tail, such as ".DS_Store", has no extension |
| PosixPath.SplitExtOfJoin | clean_data.py:57 | splitting a plain root joined to an extension gives back the two parts |
| CleanData.NewBaseName | clean_data.py:25 | `f"{split}_{counter}"`: the split, an underscore, then digits that read back as the counter, so different counters give different names |
| CleanData.NewBaseNameDistinct | clean_data.py:25 | different counters give different new base names |
| CleanData.NameMap | clean_data.py:21-27 | the dictionary of the counting loop over the sorted images, keyed by base; characterised by `NameMapEntry`, `NameMapAt` and `NameMapSize` |
| CleanData.NameMapEntry | clean_data.py:21-27 | every key is the base of a listed image and maps to the number of the LAST image with that base |
| CleanData.NameMapAt | clean_data.py:21-27 | every image's base is a key; an image whose base no later image repeats gets its own position's number |
| CleanData.NameMapSize | clean_data.py:21-29 | the map has at most as many entries as there are images |
| CleanData.NameMapInjective | clean_data.py:21-27 | different bases get different new names |
| CleanData.NameMapNonEmpty | clean_data.py:25 | every new base is non-empty, so `if new_base:` holds for every key |
| CleanData.BuildNameMap | clean_data.py:21-27 | the counting loop builds exactly the name map of the sorted listing |
| CleanData.CleanBase | clean_data.py:46-50 | `_colored` is removed first, else `_visual`, else nothing; only one suffix |
| CleanData.CleanBaseOfSuffixed | clean_data.py:46-50 | a base with `_colored` or `_visual` appended cleans back to it; a double suffix loses only its last part |
| CleanData.RenameTarget | clean_data.py:42-57 | the decision for one file: renamed exactly when its cleaned base is a key with a non-empty new base, and then to that new base plus the file's own extension |
| CleanData.RenamePreservesExtension | clean_data.py:42-57 | a renamed file keeps its extension, and its new root is `split_k` for a position k of the sorted images |
| CleanData.CorrespondingFilesShareNumber | clean_data.py:42-57 | the `_colored`/`_visual` mask files of an image's base get that base's number, each with its own extension; the image and annotation files themselves only when that base does not itself end in `_colored`/`_visual` |
| CleanData.SuffixedImageLosesItsMask | clean_data.py:46-56 | when the only image is `b_visual` plus an extension, the image keeps its name while its mask `b_visual_colored` is renamed to number 1 |
| CleanData.SuffixedImageExample | clean_data.py:46-56 | the instance "a_visual.jpg": the image is not renamed and "a_visual_colored.png" becomes "train_1.png" |
| CleanData.RenamePlanMembers | clean_data.py:41-61 | a pair is planned exactly when the file is listed and that is its decided new name |
| CleanData.RenamePlanLength | clean_data.py:40-62 | one planned rename per counted file |
| CleanData.RenamedCountOfMapped | clean_data.py:40-62 | with the script's name map, the count is the number of listed files whose cleaned base is a key |
| CleanData.RenameFolder | clean_data.py:40-62 | the per-folder loop produces exactly the planned renames, in listing order, and their count |
| CleanData.RenameSubfolders | clean_data.py:32-37 | one outcome per listed subfolder: a missing one is skipped, the others are renamed by their own listings |
| CleanData.RenameFilesSequentially | clean_data.py:11-37 | nothing happens when the images folder is missing; otherwise every subfolder is processed with the name map of the sorted images listing |

## Left out

- XML parsing is not modelled. The annotation arrives as the list of objects, with each polygon's children as a map from tag to number. A missing file is `None`.
- Parsing coordinate text with `float` is not modelled, nor the exceptions it raises on bad text.
- An `<object>` without a `<name>` is not modelled. The source crashes on it, whereas the model's objects always have a name.
- Repeated tags inside one `<polygon>` are not modelled. `find` returns the first of them, and the map keeps one value per tag.
- The fill geometry of the drawing library (scan lines, boundary pixels, clipping to the canvas) is the `covers` parameter.
- XmlPolygonToMask: pixel values are unbounded integers. The 8-bit ('L' mode) storage of ids outside 0..255 is not modelled.
- XmlPolygonToMask: log messages are not modelled.
- `visualize_mask_on_image` (resize and alpha blend), the per-split dataset driver and the script's configuration are outside the modelled core.
- RenameFilesSequentially: each subfolder's listing is a snapshot taken before any renaming. If the same subfolder is named twice, the source's second pass sees the renamed files, while the model reuses the snapshot.
- RenameFilesSequentially: `os.rename` is a planned pair. Overwriting an existing file with the new name, and failures of the rename itself, are not modelled.
- RenameFilesSequentially: a path that exists but is not a directory is not modelled; the model only knows folders present or absent.
- The order of `os.listdir` is whatever order the snapshot gives. Paths are POSIX; the Windows `ntpath` rules of `splitext` are not modelled.
- Three behaviours of the code that the model keeps:
  - the vertex loop reads at most 99 points (`range(1, 100)`);
  - a class mapped explicitly to 0 is still drawn, with 0; only a class absent from the mapping is skipped;
  - two images with the same base leave a gap in the numbering, because the later one overwrites the earlier entry (see `CleanData.NameMapEntry`).
- VisualizeMask: colour channels are bytes (0..255) by type. A configured colour outside that range is not modelled: `np.array(color, dtype=np.uint8)` raises on it or wraps it, depending on the NumPy version.
- XmlPolygonToMask: a polygon with one vertex is drawn as any other, with its pixels left to `covers`. The drawing library may refuse fewer than two points and raise an error, which would abort the whole mask. That error path is not modelled.

## Findings

| source | as written | input that shows it | evidently intended | confidence | as-written member | corrected member |
|---|---|---|---|---|---|---|
| clean_data.py:46-56 | the cleaned base is the only key looked up, so an image whose own base ends in `_visual` or `_colored` is looked up without that ending and is not renamed, while its mask is | images ["a_visual.jpg"], mask "a_visual_colored.png": the image keeps its name, the mask becomes "train_1.png" | the image, its annotation and its masks all get the same number, as the docstring at clean_data.py:4-7 promises | medium, not executed | CleanData.SuffixedImageLosesItsMask | CleanData.ExactFirstSharesNumber |

`CleanData.ExactFirstRenameTarget` looks up the file's own base first and its cleaned base only when that is not a key. With it, `ExactFirstSharesNumber` proves that image, annotation and masks share their number whatever the image's base ends in. The rest of the model keeps the script's own decision, `RenameTarget`, because it models that script.
