/** The default output file name: `<pdf base name without extension>_ocr.txt`. */
module OutputName {
  import opened Wrappers
  import opened Strings
  import opened Paths

  const OcrSuffix: string := "_ocr.txt"

  /** The name derived from the PDF path: its base name loses its last extension and gains `_ocr.txt`. */
  function DefaultOutputFilename(pdfFile: string): string
  {
    SplitExtRoot(Basename(pdfFile)) + OcrSuffix
  }

  /**
   * The derived name ends in `_ocr.txt`, and what precedes that is the base
   * name of the PDF without its last extension, which is removed whenever
   * the base name has one. It has no directory part,
   * so the text file lands in the working directory, not next to the PDF.
   */
  lemma DefaultOutputFilenameSpec(pdfFile: string)
    ensures var r := DefaultOutputFilename(pdfFile);
            EndsWith(r, OcrSuffix) && '/' !in r
    ensures var r := DefaultOutputFilename(pdfFile);
            var name := Basename(pdfFile);
            var root := r[..|r| - |OcrSuffix|];
            |root| <= |name| && root == name[..|root|] &&
            (root != name ==> name[|root|] == '.' && '.' !in name[|root| + 1..])
    // an extension is removed exactly when some dot of the base name has a non-dot before it
    ensures var r := DefaultOutputFilename(pdfFile);
            var name := Basename(pdfFile);
            var root := r[..|r| - |OcrSuffix|];
            root != name <==> exists i, j :: 0 <= i < j < |name| && name[i] != '.' && name[j] == '.'
  {
    var name := Basename(pdfFile);
    var root := SplitExtRoot(name);
    SplitExtRootOfName(name);
    NoSeparatorInPrefix(name, root);
    assert '/' !in OcrSuffix;
    AppendParts(root, OcrSuffix);
  }

  /** A string followed by a suffix: both parts can be read back, and a character in neither is in neither. */
  lemma AppendParts(root: string, suffix: string)
    ensures var r := root + suffix;
            r[..|r| - |suffix|] == root && EndsWith(r, suffix)
    ensures '/' !in root && '/' !in suffix ==> '/' !in root + suffix
  {
    var r := root + suffix;
    assert r[..|r| - |suffix|] == root;
    assert r[|r| - |suffix|..] == suffix;
  }

  /** `get_output_filename`: a non-empty `--output` is used as given, otherwise the derived name. */
  function GetOutputFilename(output: Option<string>, pdfFile: string): (r: string)
    ensures output.Some? && output.value != [] ==> r == output.value
    ensures !(output.Some? && output.value != []) ==> r == DefaultOutputFilename(pdfFile)
  {
    if output.Some? && output.value != [] then output.value else DefaultOutputFilename(pdfFile)
  }
}
