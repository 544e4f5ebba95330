# gemini_ocr in Dafny

`gemini_ocr` is a command-line tool (one Python file, `main.py`). It turns a
PDF into text in three stages:

1. It rasterizes the requested pages into the temporary folder
   `tmp_ocr_images`. Each page is saved as `<stem>_page_<NNNN>.png`, where
   NNNN is the 1-based page number padded to four digits.
2. It scans that folder for image files (`.png`, `.jpg`, `.jpeg` in any
   letter case) and sorts them by path. Each image is sent to the Gemini
   vision service.
3. It joins the returned texts into one file. Each text becomes a block
   opened by a line of 18 dashes, and blocks are separated by a blank line.

The file is named after `--output`, or else `<pdf base name>_ocr.txt`. The
temporary folder is removed on every way out of the run, unless
`--keep-images` is given. The exit code is 0 on success and 1 otherwise.

This project models that core and proves what it promises.

- **Pure parts become functions and lemmas.**
  - `PageRange`: page-range resolution.
  - `PageNaming`: page file names and their order.
  - `OutputName`: the default output name.
  - `Selection`: image selection.
  - `Assembly`: output assembly and prompt composition.
  - Python semantics they rely on: `Strings` (`str` order, `lower`, `endswith`, `join`), `Sorting` (`sorted`) and `Paths` (`os.path`, `pathlib`).
- **The run becomes the class `Pipeline.Workspace`.** It holds the temporary
  folder (whether it exists, and its entries as a map from name to kind) and
  the text files written.
  - Its methods are `convert_page_to_image`, `convert_pdf_to_images`,
    `os.listdir`, `process_images`, `clean_temp_directory` and `run_ocr_process`.
  - Each method states the new state and result in terms of the
    specification functions.
- **`RunProperties` relates the two halves of a run.**
  - On a folder without earlier images, the scan of `process_images` selects
    exactly the list `convert_pdf_to_images` returned, in page order.
  - This is proved for page numbers up to 9999. A range that crosses from
    page 9999 to page 10000 breaks it, because page 10000 sorts before
    page 9999.

Outside effects become inputs:

- The PDF is a `Document` value: missing, unreadable, or a page count.
- The credential is a boolean.
- The recognition service is a function from image path to optional text (`Recognizer`).
- The order in which `os.listdir` reports entries is left open. The
  selection is proved independent of it.

Where the repository's documented intent and `main.py` differ, the model
follows `main.py`:

- The prompt is composed, but `process_images` never uses it.
- `extract_text_from_image` refers to an undefined name (see Findings).
- File-name order is proved equal to page order for page numbers up to 9999. A range that crosses from page 9999 to page 10000 breaks it, because page 10000 sorts before page 9999.
- A run on a missing PDF still removes a leftover temporary folder in its `finally` block.

## Model

| member | source | states |
|---|---|---|
| Strings.LexLessIrreflexive | main.py:156-160 | no string sorts before itself under Python's `str` comparison |
| Strings.LexLessAsymmetric | main.py:156-160 | `a < b` and `b < a` never both hold |
| Strings.LexLessTransitive | main.py:156-160 | string order is transitive |
| Strings.LexLessTotal | main.py:156-160 | any two different strings are ordered one way or the other |
| Strings.LexLessCommonPrefix | main.py:84 | a shared prefix does not change how two strings compare |
| Strings.LexLessFirstDifference | main.py:84 | between equal-length different strings, what follows them cannot change the order |
| Strings.Lower | main.py:159 | `lower()` keeps the length and maps each character separately |
| Strings.Join | main.py:182 | joining no parts gives the empty string; one part gives that part |
| Strings.JoinSnoc | main.py:182 | one more part appends the separator and that part |
| Sorting.SortStrings | main.py:156 | `sorted` returns a permutation of its input |
| Sorting.SortStringsCorrect | main.py:156 | `sorted` output is ordered, is a permutation, and keeps distinct input distinct |
| Sorting.SortedUnique | main.py:156-160 | two sorted duplicate-free lists with the same elements are equal, so the scan result depends only on the set of paths |
| Paths.LastIndex | main.py:58 | `rfind` gives the last occurrence, or -1 when there is none |
| Paths.Basename | main.py:58 | `os.path.basename` is the longest tail without a separator, and a separator precedes it when it is not the whole path |
| Paths.SplitExtRoot | main.py:58 | `splitext` removes only a last extension: one dot followed by neither dot nor separator |
| Paths.SplitExtRootCases | main.py:58 | `splitext` removes something exactly when a non-dot precedes the last dot in the last component |
| Paths.SplitExtRootOfName | main.py:58 | on a single path component, `splitext` removes an extension exactly when some dot has a non-dot before it |
| Paths.Stem | main.py:101 | `Path.stem` removes a suffix only at a last dot that neither starts nor ends the name |
| Paths.JoinRelative | main.py:84 | `os.path.join` with a relative name puts one fixed folder prefix before it |
| Paths.BasenameOfJoin | main.py:149 | the base name of a joined path is the entry name that was joined |
| Paths.StemHasNoSeparator | main.py:101 | the stem of any path contains no separator |
| PageRange.ToZeroBased | main.py:215-216 | an absent page option stays absent; a given one is lowered by one |
| PageRange.PageIndices | main.py:123 | `range(start, end + 1)` has `end - start + 1` indices, in ascending order, or none when reversed |
| PageRange.ReportedTotalMatches | main.py:106 | the announced total is the number of pages rendered exactly when the range is reversed by at most one |
| PageRange.RenderedPagesFromOptions | main.py:104-123 | the rendered 1-based pages are exactly those between the options, defaulting to page 1 and the last page |
| PageNaming.Decimal | main.py:84 | `str(n)` is a non-empty digit string |
| PageNaming.Pad4 | main.py:84 | `{:04d}` gives at least four digits |
| PageNaming.DecimalValue | main.py:84 | the decimal digits read back as the number |
| PageNaming.Pad4Value | main.py:84 | the padded digits read back as the number |
| PageNaming.Pad4Length | main.py:84 | numbers below 10000 pad to exactly four digits |
| PageNaming.Pad4OneDigit | main.py:84 | a one-digit number gets three leading zeros |
| PageNaming.DigitsOrder | main.py:84 | on digit strings of one length, string order is numeric order |
| PageNaming.Pad4Order | main.py:84 | padded numbers below 10000 compare as strings exactly as they compare as numbers |
| PageNaming.Pad4Injective | main.py:84 | different numbers pad to different strings |
| PageNaming.PageFileNameInjective | main.py:84 | different pages get different file names, with no bound on the page count |
| PageNaming.PageFileNameOrder | main.py:84 | for 0-based pages below 9999, file-name order is page order in both directions |
| PageNaming.PageFileNameOrderBreaksAt10000 | main.py:84 | the file of page 10000 sorts before the file of page 9999 |
| OutputName.DefaultOutputFilenameSpec | main.py:58-59 | the derived name ends in `_ocr.txt` and has no directory part; before the suffix stands the PDF base name, which loses its last extension exactly when some dot in it has a non-dot before it |
| OutputName.GetOutputFilename | main.py:53-59 | a non-empty `--output` is used as given; otherwise the name is derived from the PDF path |
| Assembly.AssembleOutput | main.py:181-185 | the output text is empty exactly when there are no results |
| Assembly.AssembleOne | main.py:182-185 | a single result gives the dash line followed by its text |
| Assembly.AssembleSnoc | main.py:182-185 | one more result appends a blank line, the dash line and its text, so blocks follow result order one per result |
| Assembly.FileNamesDiscarded | main.py:183-184 | only the texts decide the output; the file names are dropped |
| Assembly.ComposePrompt | main.py:229-231 | the prompt starts with the default instruction; it is only that when the suffix is absent or empty, and otherwise a newline and the suffix follow |
| Selection.Candidates | main.py:157-159 | the unsorted list holds the joined path of every listed image file and nothing else |
| Selection.CandidatesDistinct | main.py:157 | distinct entry names give distinct joined paths |
| Selection.SelectImagesSpec | main.py:156-160 | the selection is sorted and duplicate-free, and holds a joined name exactly when the name is a listed regular file with an image extension |
| Selection.SelectionIgnoresListingOrder | main.py:156-157 | any two listings of one folder select the same paths in the same order |
| Selection.SelectedIsAnyListing | main.py:157 | the selection from whatever order the listing comes in is the folder's selection |
| Selection.SelectedSpec | main.py:156-160 | the folder's selection is sorted and duplicate-free, and holds exactly the joined paths of its image files |
| Pipeline.WithFilesEntries | main.py:85 | after saving, each saved name is a regular file and every other entry is unchanged |
| Pipeline.WithFilesTwice | main.py:84-85 | saving the same pages again leaves the folder as the first save left it |
| Pipeline.RetainedRunRepeats | main.py:219-226 | a second run kept with `--keep-images` on the same inputs leaves the folder as the first run left it, so with `RunOcrProcess` it selects the same images |
| Pipeline.PageNamesNoSeparator | main.py:84 | page file names are plain entry names when the stem and format have no separator |
| Pipeline.RecognizeAll | main.py:175-178 | one request per image in order; it succeeds exactly when every image is recognized, yielding one `(basename, text)` pair per image; otherwise the first failure ends the batch |
| Pipeline.ExtractTextAsWritten | main.py:135-142 | as written, every recognition call fails |
| Pipeline.AsWrittenProcessNeverSucceeds | main.py:175-192 | as written, `process_images` can never report success |
| Pipeline.Workspace.constructor | main.py:22 | the run starts from a given folder state, possibly left over from an earlier run |
| Pipeline.Workspace.MakeTempDir | main.py:100 | the folder exists afterwards and its entries are kept |
| Pipeline.Workspace.ConvertPageToImage | main.py:69-88 | the page's file is added as a regular file and its joined path is returned; the folder stays well formed |
| Pipeline.Workspace.ConvertPdfToImages | main.py:91-123 | the folder exists afterwards; an unopenable document yields no list and no files; otherwise every page in range is saved and the page paths are returned in page order |
| Pipeline.Workspace.SavePages | main.py:123 | saving pages in ascending order adds exactly their files and returns their paths |
| Pipeline.Workspace.ListDir | main.py:157 | the listing names each folder entry exactly once |
| Pipeline.Workspace.ScanImages | main.py:156-160 | the sorted image paths read off a listing are the folder's selection, whatever order the listing came in |
| Pipeline.Workspace.ProcessImages | main.py:152-192 | returns True exactly when the folder exists, holds an image, a credential is present and every image is recognized; only then is the output file written, with the assembled text of the sorted selection |
| Pipeline.Workspace.CleanTempDirectory | main.py:195-199 | without `keep_images` the folder is gone afterwards; with it nothing changes |
| Pipeline.Workspace.RunOcrProcess | main.py:202-245 | exit code is 0 exactly when the PDF opens and `process_images` succeeds on the rendered folder, else 1; cleanup runs on every path; output is written only on success |
| Pipeline.Workspace.RunOcrProcessAsWritten | main.py:202-245 | as written, the exit code is always 1 and no output file is written; the temporary folder is still removed unless `--keep-images` is given, and otherwise holds the rendered pages |
| RunProperties.PngPageIsImage | main.py:159 | every rendered PNG page passes the extension filter |
| RunProperties.PageNamesAreImages | main.py:159 | every page name the rasterizer saves as PNG passes the extension filter |
| RunProperties.PagePathsAscending | main.py:123 | the returned page paths strictly ascend in string order while pages stay below 9999 |
| RunProperties.FreshFolderSelectsRenderedPages | main.py:219-235 | on a folder without earlier images, the scan selects exactly the list `convert_pdf_to_images` returned, in page order |
| RunProperties.FreshFolderSelectsSaved | main.py:156-160 | the same for any saved image names whose paths ascend |
| RunProperties.LeftoverImagesAreSelected | main.py:156-160 | image files already in the folder are selected too, whether or not this run rendered them |
| RunProperties.ThreePageDocument | main.py:104-123 | a three-page document without page options renders pages 0001, 0002 and 0003 |
| RunProperties.SecondPageOnly | main.py:215-216 | `--first-page 2 --last-page 2` renders only page 0002 |

## Left out

- Rendering itself is not modelled: the zoom factor (a float), the pixel matrix and the image bytes. A saved page is a regular-file entry of the folder.
- Command-line parsing (`argparse`), console messages and `sys.exit` are not modelled. The arguments are an `Args` value, and the exit code is the result of `RunOcrProcess`.
- The credential lookup through `dotenv` and the environment becomes a boolean. The Gemini client becomes the `Recognizer` function. `PIL` image loading is part of that function: an image that cannot be read is a failed recognition.
- `validate_pdf_exists` and `fitz.open` become the `Document` input: missing, unreadable, or a page count.
- Pipeline.Workspace.RunOcrProcess: requires the resolved page range to lie within the document. The renderer raises for indices outside it, and its handling of negative indices is not modelled.
- Pipeline.Workspace.ConvertPdfToImages: requires the same page bound.
- Pipeline.Workspace.RunOcrProcessAsWritten: requires the same page bound, so "always exit 1" is proved only for page ranges inside the document. Outside it the source also exits 1, because the renderer's error is caught by `run_ocr_process`, but that path is not modelled.
- Pipeline.Workspace.ConvertPageToImage: saving always succeeds. An existing regular file with the page's name is overwritten, in the model as in Python. A subdirectory with the page's name is overwritten too in the model, while in Python the save would fail.
- Pipeline.Workspace.ProcessImages: writing the output file always succeeds. An unwritable output path, or one inside the temporary folder, is not modelled.
- Pipeline.Workspace.CleanTempDirectory: a failure of the recursive removal is not modelled.
- Strings.Lower: maps only ASCII letters. Python's `lower()` also maps other letters, but the image extensions are ASCII.
- Paths.Stem: follows the Python 3.12 `pathlib` rule, applied to the `os.path.basename` of the PDF path. `pathlib` normalises the path first, so the two differ for a path ending in `/` (`Path("a/b.pdf/").name` is `b.pdf`, `basename` gives the empty string). They agree on every path that names an existing file, but the `Document` input is not tied to the path. Paths use `/` as the only separator, as on POSIX.
- The composed prompt never reaches the recognizer, because `process_images` ignores its `prompt` parameter. `Recognizer` therefore takes only the image path.
- Other processes changing the temporary folder during a run are not modelled.

## Findings

| source | as written | input that shows it | evidently intended | confidence | as-written member | corrected member |
|---|---|---|---|---|---|---|
| main.py:140 | `extract_text_from_image` passes `OCR_PROMPT`, a name the module never defines, so every call raises `NameError`. `process_images` catches it and returns False, so every run exits with 1 and writes no text file. | any PDF with at least one page in range, with a valid credential | build the request from a defined prompt and return the recognized text; the corrected member fixes only the `NameError`: recognition succeeds or fails per image, and which prompt is sent is not modelled | high (not executed) | Pipeline.AsWrittenProcessNeverSucceeds | Pipeline.Workspace.RunOcrProcess |
