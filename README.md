# OCR demo scripts: tiling, script-name extraction, keyword test

The repository is a set of short scripts around the Tesseract OCR engine. Apart
from loading images, showing windows, printing and calling the engine, three
pieces of logic remain, and this project models them as pure Dafny functions
with proved properties:

- **Tiling a small image** before orientation/script detection
  (`bonus_osd_small_images.py`): `cv2.hconcat([img]*5)` puts five copies of
  the image side by side, and `cv2.vconcat([img_tiled_h]*5)` stacks five copies
  of that strip. Module `Tiling` models an image as a non-empty rectangular
  `seq<seq<T>>` with an opaque pixel type, `[x]*k` as `Replicate`, `hconcat` as
  row-wise concatenation (`HConcat`) and `vconcat` as concatenation of row lists
  (`VConcat`). The repeat counts are parameters `cols, rows >= 1`; `SourceTile`
  fixes both at the script's 5.
- **Extracting the script name** from the detection output
  (`bonus_osd_small_images.py` and `detect_language.py`):
  `re.search('(?<=Script: )[a-zA-Z]+', osd_output).group(0)`. Module
  `ScriptExtract` scans for the leftmost position preceded by `"Script: "`
  whose character is an ASCII letter and takes the longest run of letters from
  there. `None` stands for the failed search, on which `.group(0)` raises
  `AttributeError` and the script stops.
- **The keyword test** (`match_text.py`): `keyword in text` with
  `keyword = 'Tesseract'` selects one of two messages. Module `KeywordMatch`
  models Python's substring membership as `Contains` and the branch as
  `MatchText`, returning `Found` or `NotFound`.

Two details of the code shape the model:

- Script extraction fails not only when the label is absent. It also fails
  when every `"Script: "` is followed by a non-letter. Such a label is skipped
  and the search continues with later labels.
- The script hard-codes the repeat count 5 and never checks it. The model
  takes the counts as parameters of at least 1.

## Model

| member | source | states |
|---|---|---|
| Tiling.Replicate | OCR_Blog_1/src/bonus_osd_small_images.py:14 | `[x]*k` is a list of length `k` whose every element is `x` |
| Tiling.HConcat | OCR_Blog_1/src/bonus_osd_small_images.py:14 | `cv2.hconcat` of images of one height gives a rectangular image of that height whose width is the sum of the input widths |
| Tiling.VConcat | OCR_Blog_1/src/bonus_osd_small_images.py:17 | `cv2.vconcat` of images of one width gives a rectangular image of that width whose height is the sum of the input heights |
| Tiling.ConcatReplicateAt | OCR_Blog_1/src/bonus_osd_small_images.py:14-17 | joining `k` copies of `s` gives length `k·\|s\|`, and position `i` holds `s[i mod \|s\|]` |
| Tiling.HConcatReplicate | OCR_Blog_1/src/bonus_osd_small_images.py:14 | the images in `[img]*cols` are valid `hconcat` input; row `r` of the result has width `cols·w` and pixel `c` equal to `img[r][c mod w]` |
| Tiling.TileH | OCR_Blog_1/src/bonus_osd_small_images.py:14 | the horizontal strip is a rectangular image with the same number of rows as `img`, each `cols` times as long, and pixel `(r, c)` is `img[r][c mod w]` |
| Tiling.TileHRows | OCR_Blog_1/src/bonus_osd_small_images.py:14 | row `r` of the horizontal strip is row `r` of `img` repeated `cols` times in order |
| Tiling.Tile | OCR_Blog_1/src/bonus_osd_small_images.py:14-17 | the composite is a rectangular image of `rows·h` rows of width `cols·w` |
| Tiling.TileRows | OCR_Blog_1/src/bonus_osd_small_images.py:17 | row `r` of the composite is row `r mod h` of the horizontal strip |
| Tiling.TilePixel | OCR_Blog_1/src/bonus_osd_small_images.py:14-17 | every pixel `(r, c)` of the composite equals `img[r mod h][c mod w]` |
| Tiling.TileIsGrid | OCR_Blog_1/src/bonus_osd_small_images.py:14-17 | the two-pass `hconcat`-then-`vconcat` construction equals direct replication on a regular grid (`GridTile`) |
| Tiling.TileKeepsOriginal | OCR_Blog_1/src/bonus_osd_small_images.py:14-20 | the original image appears unchanged as the top-left copy of the composite |
| Tiling.TileOnce | OCR_Blog_1/src/bonus_osd_small_images.py:14-17 | tiling with one copy per axis gives back the image itself, so re-tiling a composite 1×1 is the identity |
| Tiling.TilePixels | OCR_Blog_1/src/bonus_osd_small_images.py:14-17 | the set of pixel values of the composite is exactly that of the original: tiling introduces no new values and loses none |
| Tiling.TileTwice | OCR_Blog_1/src/bonus_osd_small_images.py:14-17 | tiling a composite again equals tiling the original once with the products of the repeat counts |
| Tiling.SourceTile | OCR_Blog_1/src/bonus_osd_small_images.py:14-17 | the script's composite is a rectangular image of `5·h` rows of width `5·w` |
| Tiling.SourceTileShape | OCR_Blog_1/src/bonus_osd_small_images.py:14-17 | the script's composite has `5·h` rows of width `5·w`, and pixel `(r, c)` is `img[r mod h][c mod w]` |
| ScriptExtract.LetterRun | OCR_Blog_1/src/bonus_osd_small_images.py:33 | the greedy `[a-zA-Z]+`: the run from `p` stays inside the text, holds only letters, and is followed by the end of the text or a non-letter |
| ScriptExtract.FindStart | OCR_Blog_1/src/bonus_osd_small_images.py:33 | the scan of `re.search` returns the leftmost position from `from` preceded by `"Script: "` and holding a letter, or none when no such position exists |
| ScriptExtract.ExtractScript | OCR_Blog_1/src/detect_language.py:13 | the search fails exactly when no `"Script: "` in the text is followed by a letter; on success the result is the greedy letter run at the leftmost such position |
| ScriptExtract.ExtractedAtUnique | OCR_Blog_1/src/detect_language.py:13 | the leftmost match position and its greedy run are unique, so the regular-expression result is well defined |
| ScriptExtract.ExtractScriptIff | OCR_Blog_1/src/detect_language.py:13 | `ExtractScript(s) == Some(name)` holds exactly when `name` is the maximal letter run at the leftmost position preceded by `"Script: "` and holding a letter |
| ScriptExtract.ExtractScriptShape | OCR_Blog_1/src/bonus_osd_small_images.py:33 | a successful result is a non-empty run of ASCII letters, immediately preceded by exactly `"Script: "`, and not followed by a letter |
| ScriptExtract.NoMarkerFails | OCR_Blog_1/src/detect_language.py:13 | text with no `"Script: "` substring has no match, so `.group(0)` is called on `None` |
| ScriptExtract.FirstMatchingLabel | OCR_Blog_1/src/detect_language.py:13 | when no match starts before a label that is followed by the letters `name` and then a non-letter or the end of the text, the result is `name`; later labels do not matter |
| ScriptExtract.SoleMarker | OCR_Blog_1/src/detect_language.py:13 | when the only label in the text is followed by a letter run and a line break, that run is the result |
| ScriptExtract.ArabicExample | OCR_Blog_1/src/detect_language.py:13 | text in which `"Script: Arabic\n"` holds the first label followed by a letter yields `"Arabic"` |
| KeywordMatch.Contains | OCR_Blog_1/src/match_text.py:10 | Python's `kw in text` holds exactly when `kw` occurs as a contiguous substring at some index; a text shorter than `kw` never contains it |
| KeywordMatch.MatchText | OCR_Blog_1/src/match_text.py:8-13 | the "found" branch is taken exactly when `'Tesseract'` occurs in the text, and the "not found" branch exactly when it does not |
| KeywordMatch.ShortTextNotFound | OCR_Blog_1/src/match_text.py:10 | a text shorter than the keyword takes the "not found" branch |
| KeywordMatch.CaseSensitive | OCR_Blog_1/src/match_text.py:10 | the match is case-sensitive: `"tesseract"` and `"TESSERACT"` take the "not found" branch |
| KeywordMatch.GreatExample | OCR_Blog_1/src/match_text.py:8-13 | `"Tesseract is great"` takes the "found" branch, and `"OCR"` is not in that text |
| KeywordMatch.AbsentFirstChar | OCR_Blog_1/src/match_text.py:10 | a keyword whose first character never appears in the text does not occur in it |

## Left out

- Image loading (`cv2.imread`), display windows (`cv2.imshow`, `cv2.waitKey`, `cv2.destroyAllWindows`) and every `print`: file and GUI I/O. A missing file (`imread` returning `None`) is excluded by requiring a non-empty rectangular image.
- The Tesseract calls `pytesseract.image_to_osd` and `pytesseract.image_to_string`: an external engine whose behaviour is not visible. The OSD text and the OCR text are arbitrary input strings, so the end-to-end run of the tiled image through the engine is not modelled.
- `simple_ocr.py` and `arabic_ocr.py`: they only load an image, run OCR with configuration flags and print. They are not part of this model.
- Pixel dtypes, channel layout, and the type checks inside `hconcat` / `vconcat`: pixels are an opaque type. Input validity is stated as the `SameHeight` / `SameWidth` preconditions.
- A repeat count of 0: the script always passes 5, so `Tile` requires counts of at least 1 and the behaviour of `hconcat` / `vconcat` on an empty list is not modelled.
- Determinism of the extraction and the fact that tiling leaves `img` untouched get no lemma of their own. Every operation here is a Dafny function over immutable values, so both hold by construction.
