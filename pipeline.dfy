/**
 * The run as a whole: rasterize the requested pages into the temporary
 * folder, recognise every image found there, write the assembled text,
 * and remove the folder on every way out unless images are kept.
 *
 * The file system is reduced to what the run touches: the temporary
 * folder (whether it exists, and its entries) and the text files written.
 */
module Pipeline {
  import opened Wrappers
  import opened Strings
  import opened Paths
  import opened Sorting
  import opened PageRange
  import opened PageNaming
  import opened Selection
  import opened Assembly
  import opened OutputName

  /** The temporary folder, relative to the working directory. */
  const TempDir: string := "tmp_ocr_images"

  /** The image format the run renders pages in. */
  const DefaultOutputFormat: string := "png"

  /** The parsed command line; the zoom factor is left out. */
  datatype Args = Args(
    pdfFile: string,
    firstPage: Option<int>,
    lastPage: Option<int>,
    output: Option<string>,
    keepImages: bool,
    prompt: Option<string>)

  /** What the PDF path leads to: no file, a file the renderer cannot open, or a document of some pages. */
  datatype Document = Missing | Unreadable | Pdf(pageCount: nat)

  /** The recognition service, seen from the tool: an image path gives its text, or fails. */
  type Recognizer = string -> Option<string>

  /** The names the rasterizer gives the pages `start..end`. */
  function PageNames(stem: string, start: int, end: int, format: string): seq<string>
    requires start > end || 0 <= start
  {
    seq(|PageIndices(start, end)|, i requires 0 <= i < |PageIndices(start, end)| => PageFileName(stem, start + i, format))
  }

  /** The paths of `names` in the temporary folder. */
  function TempPaths(names: seq<string>): seq<string>
  {
    seq(|names|, i requires 0 <= i < |names| => PathJoin(TempDir, names[i]))
  }

  lemma PrefixSnoc<T>(s: seq<T>, i: int)
    requires 0 <= i < |s|
    ensures s[..i + 1] == s[..i] + [s[i]] && s[..i + 1][..i] == s[..i]
  {
  }

  lemma TempPathsSnoc(names: seq<string>, name: string)
    ensures TempPaths(names + [name]) == TempPaths(names) + [PathJoin(TempDir, name)]
  {
  }

  /** The paths `convert_pdf_to_images` returns for the pages `start..end`. */
  function PagePaths(stem: string, start: int, end: int, format: string): seq<string>
    requires start > end || 0 <= start
  {
    TempPaths(PageNames(stem, start, end, format))
  }

  /** A folder after the rasterizer has saved `names` into it, one after the other. */
  function WithFiles(entries: map<string, Kind>, names: seq<string>): map<string, Kind>
  {
    if names == [] then entries
    else WithFiles(entries, names[..|names| - 1])[names[|names| - 1] := RegularFile]
  }

  /** Each saved name is now a regular file; every other entry is as it was. */
  lemma {:induction false} WithFilesEntries(entries: map<string, Kind>, names: seq<string>)
    ensures forall n :: n in WithFiles(entries, names) <==> n in entries || n in names
    ensures forall n :: n in names ==> WithFiles(entries, names)[n] == RegularFile
    ensures forall n :: n in entries && n !in names ==> WithFiles(entries, names)[n] == entries[n]
  {
    if names != [] {
      var init := names[..|names| - 1];
      WithFilesEntries(entries, init);
      assert names == init + [names[|names| - 1]];
    }
  }

  /** Every index the run renders. */
  ghost predicate RangeInDocument(args: Args, pageCount: nat)
  {
    InDocument(ResolveStart(ToZeroBased(args.firstPage)), ResolveEnd(ToZeroBased(args.lastPage), pageCount), pageCount)
  }

  /** The temporary folder after the rasterizing step of a run. */
  ghost function TempAfterConversion(entries: map<string, Kind>, args: Args, doc: Document): map<string, Kind>
  {
    if doc.Pdf? && RangeInDocument(args, doc.pageCount) then
      WithFiles(entries, PageNames(Stem(Basename(args.pdfFile)),
        ResolveStart(ToZeroBased(args.firstPage)), ResolveEnd(ToZeroBased(args.lastPage), doc.pageCount),
        DefaultOutputFormat))
    else entries
  }

  predicate AllRecognized(images: seq<string>, recognize: Recognizer)
  {
    forall i :: 0 <= i < |images| ==> recognize(images[i]).Some?
  }

  /** The `(filename, text)` pairs `process_image` yields, one per image, in order. */
  function Recognized(images: seq<string>, recognize: Recognizer): seq<(string, string)>
    requires AllRecognized(images, recognize)
  {
    seq(|images|, i requires 0 <= i < |images| => (Basename(images[i]), recognize(images[i]).value))
  }

  /** Recognising one more image appends its pair. */
  lemma RecognizedSnoc(images: seq<string>, recognize: Recognizer, n: nat)
    requires n < |images| && AllRecognized(images[..n], recognize) && recognize(images[n]).Some?
    ensures AllRecognized(images[..n + 1], recognize)
    ensures Recognized(images[..n + 1], recognize) ==
      Recognized(images[..n], recognize) + [(Basename(images[n]), recognize(images[n]).value)]
  {
    assert forall i :: 0 <= i <= n ==> images[..n + 1][i] == images[i];
  }

  /** When `process_images` returns True for a folder. */
  ghost predicate ProcessSucceeds(tempExists: bool, entries: map<string, Kind>, hasCredential: bool, recognize: Recognizer)
  {
    tempExists && Selected(TempDir, entries) != [] && hasCredential && AllRecognized(Selected(TempDir, entries), recognize)
  }

  /**
   * The list comprehension that builds `results` in `process_images`:
   * recognise each image in turn; the first failure ends the batch
   * (nothing is retried or skipped), and `calls` counts the requests made.
   */
  method RecognizeAll(images: seq<string>, recognize: Recognizer) returns (results: Option<seq<(string, string)>>, calls: nat)
    ensures calls <= |images|
    ensures results.Some? <==> AllRecognized(images, recognize)
    ensures results.Some? ==> calls == |images| && results.value == Recognized(images, recognize)
    ensures results.None? ==>
      1 <= calls && recognize(images[calls - 1]).None? && forall i :: 0 <= i < calls - 1 ==> recognize(images[i]).Some?
  {
    var acc: seq<(string, string)> := [];
    calls := 0;
    while calls < |images|
      invariant calls <= |images|
      invariant AllRecognized(images[..calls], recognize)
      invariant acc == Recognized(images[..calls], recognize)
    {
      var text := recognize(images[calls]);
      if text.None? {
        assert forall i :: 0 <= i < calls ==> images[..calls][i] == images[i];
        return None, calls + 1;
      }
      RecognizedSnoc(images, recognize, calls);
      acc := acc + [(Basename(images[calls]), text.value)];
      calls := calls + 1;
    }
    assert images[..calls] == images;
    results := Some(acc);
  }

  /**
   * `extract_text_from_image` as written: building the request reads the
   * name `OCR_PROMPT`, which the module never defines, so every call
   * raises `NameError` before the service is reached.
   */
  function ExtractTextAsWritten(imagePath: string): (r: Option<string>)
    ensures r.None?
  {
    None
  }

  /** As written, `process_images` can never return True. */
  lemma AsWrittenProcessNeverSucceeds(tempExists: bool, entries: map<string, Kind>, hasCredential: bool)
    ensures !ProcessSucceeds(tempExists, entries, hasCredential, ExtractTextAsWritten)
  {
    var images := Selected(TempDir, entries);
    if images != [] {
      assert ExtractTextAsWritten(images[0]).None?;
    }
  }

  /** The state a run works on. */
  class Workspace {
    /** Whether `tmp_ocr_images` exists. */
    var tempExists: bool
    /** The entries of `tmp_ocr_images`. */
    var temp: map<string, Kind>
    /** The text files the tool has written, by path. */
    var outputs: map<string, string>

    ghost predicate Valid()
      reads this
    {
      (!tempExists ==> temp == map[]) && ValidEntries(temp)
    }

    /** The file system as a run finds it; the folder may be left over from an earlier run. */
    constructor (tempExists: bool, temp: map<string, Kind>, outputs: map<string, string>)
      requires !tempExists ==> temp == map[]
      requires ValidEntries(temp)
      ensures Valid()
      ensures this.tempExists == tempExists && this.temp == temp && this.outputs == outputs
    {
      this.tempExists := tempExists;
      this.temp := temp;
      this.outputs := outputs;
    }

    /** `os.makedirs(TEMP_DIR, exist_ok=True)`: create the folder, or keep it as it is. */
    method MakeTempDir()
      requires Valid()
      modifies this`tempExists
      ensures Valid() && tempExists
    {
      tempExists := true;
    }

    /** `convert_page_to_image`: save the image of one page under its name and return its path. */
    method ConvertPageToImage(stem: string, pageNum: nat, format: string) returns (path: string)
      requires Valid() && tempExists && '/' !in stem && '/' !in format
      modifies this`temp
      ensures Valid()
      ensures temp == old(temp)[PageFileName(stem, pageNum, format) := RegularFile]
      ensures path == PathJoin(TempDir, PageFileName(stem, pageNum, format))
    {
      var name := PageFileName(stem, pageNum, format);
      PageFileNameNoSeparator(stem, pageNum, format);
      temp := temp[name := RegularFile];
      path := PathJoin(TempDir, name);
    }

    /**
     * `convert_pdf_to_images` with the temporary folder as output: create
     * the folder, open the document (None when it cannot be opened),
     * resolve absent bounds to the first and last page, and save pages
     * `start..end` in ascending order.
     */
    method ConvertPdfToImages(pdfPath: string, doc: Document, format: string, first: Option<int>, last: Option<int>)
      returns (paths: Option<seq<string>>)
      requires Valid() && '/' !in format
      requires doc.Pdf? ==> InDocument(ResolveStart(first), ResolveEnd(last, doc.pageCount), doc.pageCount)
      modifies this`tempExists, this`temp
      ensures Valid() && tempExists
      ensures paths.Some? <==> doc.Pdf?
      ensures !doc.Pdf? ==> temp == old(temp)
      ensures doc.Pdf? ==>
        var stem, start, end := Stem(Basename(pdfPath)), ResolveStart(first), ResolveEnd(last, doc.pageCount);
        temp == WithFiles(old(temp), PageNames(stem, start, end, format)) &&
        paths.value == PagePaths(stem, start, end, format)
    {
      tempExists := true;
      var stem := Stem(Basename(pdfPath));
      if !doc.Pdf? {
        return None;
      }
      var start, end := ResolveStart(first), ResolveEnd(last, doc.pageCount);
      StemHasNoSeparator(pdfPath);
      var saved := SavePages(stem, start, end, format);
      paths := Some(saved);
    }

    /**
     * The list comprehension that ends `convert_pdf_to_images`: save pages
     * `start..end` one after the other, collecting their paths.
     */
    method SavePages(stem: string, start: int, end: int, format: string) returns (paths: seq<string>)
      requires start > end || 0 <= start
      requires Valid() && tempExists && '/' !in stem && '/' !in format
      modifies this`temp
      ensures Valid()
      ensures temp == WithFiles(old(temp), PageNames(stem, start, end, format))
      ensures paths == PagePaths(stem, start, end, format)
    {
      var names := PageNames(stem, start, end, format);
      paths := [];
      var i := 0;
      while i < |names|
        invariant 0 <= i <= |names| && |paths| == i
        invariant temp == WithFiles(old(temp), names[..i])
        invariant paths == TempPaths(names[..i])
        invariant Valid()
      {
        assert names[i] == PageFileName(stem, start + i, format);
        var path := ConvertPageToImage(stem, start + i, format);
        PrefixSnoc(names, i);
        TempPathsSnoc(names[..i], names[i]);
        paths := paths + [path];
        i := i + 1;
      }
      assert names[..i] == names;
    }

    /** `os.listdir(TEMP_DIR)`: every entry once, in an order the model leaves open. */
    method ListDir() returns (listing: seq<string>)
      ensures Enumerates(listing, temp)
    {
      listing := [];
      var rest := temp.Keys;
      while rest != {}
        invariant rest <= temp.Keys
        invariant Distinct(listing)
        invariant forall f :: f in listing <==> f in temp && f !in rest
        decreases rest
      {
        var f :| f in rest;
        listing := listing + [f];
        rest := rest - {f};
      }
    }

    /** The sorted image paths `process_images` reads off the folder listing. */
    method ScanImages() returns (images: seq<string>)
      requires Valid()
      ensures images == Selected(TempDir, temp)
    {
      var listing := ListDir();
      images := SelectImages(TempDir, listing, temp);
      SelectedIsAnyListing(TempDir, listing, temp);
    }

    /**
     * `process_images(TEMP_DIR, outputFile, prompt)`: select the images in
     * the folder; with none, or without a credential, or when any
     * recognition fails, return False and write nothing; otherwise write
     * the assembled text and return True. The prompt is not used.
     */
    method ProcessImages(outputFile: string, prompt: string, hasCredential: bool, recognize: Recognizer) returns (ok: bool)
      requires Valid()
      modifies this`outputs
      ensures Valid()
      ensures ok <==> ProcessSucceeds(tempExists, temp, hasCredential, recognize)
      ensures ok ==> outputs == old(outputs)[outputFile := AssembleOutput(Recognized(Selected(TempDir, temp), recognize))]
      ensures !ok ==> outputs == old(outputs)
    {
      ok := false;
      if tempExists {
        var images := ScanImages();
        // no image: a warning and False; no credential: the client raises
        if images != [] && hasCredential {
          var results, _ := RecognizeAll(images, recognize);
          if results.Some? {
            outputs := outputs[outputFile := AssembleOutput(results.value)];
            ok := true;
          }
        }
      }
    }

    /** `clean_temp_directory`: remove the folder and everything in it, unless images are kept. */
    method CleanTempDirectory(keepImages: bool)
      requires Valid()
      modifies this`tempExists, this`temp
      ensures Valid()
      ensures keepImages ==> tempExists == old(tempExists) && temp == old(temp)
      ensures !keepImages ==> !tempExists && temp == map[]
    {
      if !keepImages && tempExists {
        tempExists := false;
        temp := map[];
      }
    }

    /**
     * `run_ocr_process`: the exit code is 0 exactly when `process_images`
     * returned True and 1 on every other path, and the cleanup of the
     * `finally` block runs on all of them.
     */
    method RunOcrProcess(args: Args, doc: Document, hasCredential: bool, recognize: Recognizer) returns (exitCode: int)
      requires Valid()
      requires doc.Pdf? ==> RangeInDocument(args, doc.pageCount)
      modifies this
      ensures Valid()
      ensures exitCode == 0 || exitCode == 1
      ensures !args.keepImages ==> !tempExists && temp == map[]
      ensures args.keepImages ==>
        tempExists == (old(tempExists) || !doc.Missing?) && temp == TempAfterConversion(old(temp), args, doc)
      ensures exitCode == 0 <==>
        doc.Pdf? && ProcessSucceeds(true, TempAfterConversion(old(temp), args, doc), hasCredential, recognize)
      ensures exitCode == 0 ==>
        outputs == old(outputs)[GetOutputFilename(args.output, args.pdfFile) :=
          AssembleOutput(Recognized(Selected(TempDir, TempAfterConversion(old(temp), args, doc)), recognize))]
      ensures exitCode != 0 ==> outputs == old(outputs)
    {
      exitCode := 1;
      if !doc.Missing? {
        var outputFile := GetOutputFilename(args.output, args.pdfFile);
        MakeTempDir();
        var first, last := ToZeroBased(args.firstPage), ToZeroBased(args.lastPage);
        var converted := ConvertPdfToImages(args.pdfFile, doc, DefaultOutputFormat, first, last);
        if converted.Some? {
          var prompt := ComposePrompt(args.prompt);
          var ok := ProcessImages(outputFile, prompt, hasCredential, recognize);
          exitCode := if ok then 0 else 1;
        }
      }
      CleanTempDirectory(args.keepImages);
    }

    /** The tool as written: the exit code is always 1 and no text file is ever written. */
    method RunOcrProcessAsWritten(args: Args, doc: Document, hasCredential: bool) returns (exitCode: int)
      requires Valid()
      requires doc.Pdf? ==> RangeInDocument(args, doc.pageCount)
      modifies this
      ensures Valid()
      ensures exitCode == 1 && outputs == old(outputs)
      ensures !args.keepImages ==> !tempExists && temp == map[]
      ensures args.keepImages ==>
        tempExists == (old(tempExists) || !doc.Missing?) && temp == TempAfterConversion(old(temp), args, doc)
    {
      AsWrittenProcessNeverSucceeds(true, TempAfterConversion(temp, args, doc), hasCredential);
      exitCode := RunOcrProcess(args, doc, hasCredential, ExtractTextAsWritten);
    }
  }

  /** Saving the same names a second time leaves the folder as the first save left it. */
  lemma WithFilesTwice(entries: map<string, Kind>, names: seq<string>)
    ensures WithFiles(WithFiles(entries, names), names) == WithFiles(entries, names)
  {
    var once := WithFiles(entries, names);
    var twice := WithFiles(once, names);
    WithFilesEntries(entries, names);
    WithFilesEntries(once, names);
    assert twice.Keys == once.Keys;
    forall n | n in once ensures twice[n] == once[n] {
      if n in names {
        assert twice[n] == RegularFile == once[n];
      } else {
        assert twice[n] == once[n];
      }
    }
  }

  /**
   * A run kept with `--keep-images` repeated on the same inputs finds the folder the first run left
   * and leaves it unchanged.
   */
  lemma RetainedRunRepeats(entries: map<string, Kind>, args: Args, doc: Document)
    ensures TempAfterConversion(TempAfterConversion(entries, args, doc), args, doc)
         == TempAfterConversion(entries, args, doc)
  {
    if doc.Pdf? && RangeInDocument(args, doc.pageCount) {
      WithFilesTwice(entries, PageNames(Stem(Basename(args.pdfFile)),
        ResolveStart(ToZeroBased(args.firstPage)), ResolveEnd(ToZeroBased(args.lastPage), doc.pageCount),
        DefaultOutputFormat));
    }
  }

  /** `WithFilesEntries` for one name. */
  lemma WithFilesAt(entries: map<string, Kind>, names: seq<string>, n: string)
    ensures n in WithFiles(entries, names) <==> n in entries || n in names
    ensures n in names ==> WithFiles(entries, names)[n] == RegularFile
    ensures n in entries && n !in names ==> WithFiles(entries, names)[n] == entries[n]
  {
    WithFilesEntries(entries, names);
  }

  lemma PageFileNameNoSeparator(stem: string, pageNum: nat, format: string)
    requires '/' !in stem && '/' !in format
    ensures '/' !in PageFileName(stem, pageNum, format)
  {
    var d := Pad4(pageNum + 1);
    assert '/' !in d by {
      forall k | 0 <= k < |d| ensures d[k] != '/' {
        assert IsDigit(d[k]);
      }
    }
  }

  lemma PageNamesNoSeparator(stem: string, start: int, end: int, format: string)
    requires start > end || 0 <= start
    requires '/' !in stem && '/' !in format
    ensures forall n :: n in PageNames(stem, start, end, format) ==> '/' !in n
  {
    var names := PageNames(stem, start, end, format);
    forall k | 0 <= k < |names| ensures '/' !in names[k] {
      PageFileNameNoSeparator(stem, start + k, format);
    }
  }

  lemma WithFilesValid(entries: map<string, Kind>, names: seq<string>)
    requires ValidEntries(entries) && forall n :: n in names ==> '/' !in n
    ensures ValidEntries(WithFiles(entries, names))
  {
    WithFilesEntries(entries, names);
  }
}
