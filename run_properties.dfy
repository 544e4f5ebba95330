/**
 * What a run's two halves promise each other: the directory scan of
 * `process_images` against the list `convert_pdf_to_images` returns.
 */
module RunProperties {
  import opened Wrappers
  import opened Strings
  import opened Paths
  import opened Sorting
  import opened PageRange
  import opened PageNaming
  import opened Selection
  import opened Pipeline

  /** Every rendered PNG page passes the extension filter. */
  lemma PngPageIsImage(stem: string, pageNum: nat)
    ensures IsImageName(PageFileName(stem, pageNum, "png"))
  {
    var name := PageFileName(stem, pageNum, "png");
    var low := Lower(name);
    var n := |name|;
    assert name[n - 4..] == ".png";
    assert name[n - 4] == '.' && name[n - 3] == 'p' && name[n - 2] == 'n' && name[n - 1] == 'g';
    assert low[n - 4..] == ".png";
    assert EndsWith(low, ImageExtensions[0]);
  }

  /** Every page the rasterizer saves as PNG passes the extension filter. */
  lemma PageNamesAreImages(stem: string, start: int, end: int)
    requires start > end || 0 <= start
    ensures forall n :: n in PageNames(stem, start, end, "png") ==> IsImageName(n)
  {
    var names := PageNames(stem, start, end, "png");
    forall n | n in names ensures IsImageName(n) {
      var k :| 0 <= k < |names| && names[k] == n;
      PngPageIsImage(stem, start + k);
    }
  }

  /** The paths the rasterizer returns strictly increase in string order while pages stay below 9999. */
  lemma PagePathsAscending(stem: string, start: int, end: int)
    requires start > end || (0 <= start && end < 9999)
    requires '/' !in stem
    ensures Sorted(PagePaths(stem, start, end, "png")) && Distinct(PagePaths(stem, start, end, "png"))
  {
    var names := PageNames(stem, start, end, "png");
    var paths := PagePaths(stem, start, end, "png");
    PageNamesNoSeparator(stem, start, end, "png");
    forall i, j | 0 <= i < j < |paths| ensures LexLess(paths[i], paths[j])
    {
      JoinRelative(TempDir, names[i]);
      JoinRelative(TempDir, names[j]);
      PageFileNameOrder(stem, "png", start + i, start + j);
      LexLessCommonPrefix(JoinPrefix(TempDir), names[i], names[j]);
    }
    forall i, j | 0 <= i < j < |paths| ensures paths[i] != paths[j]
    {
      LexLessIrreflexive(paths[i]);
    }
  }

  /**
   * On a folder without image files, which is what cleanup leaves, the
   * directory scan finds exactly the pages the rasterizer saved, in page
   * order: the list `convert_pdf_to_images` returned.
   */
  lemma FreshFolderSelectsRenderedPages(entries: map<string, Kind>, stem: string, start: int, end: int)
    requires ValidEntries(entries) && '/' !in stem
    requires forall f :: !IsImageFile(entries, f)
    requires start > end || (0 <= start && end < 9999)
    ensures Selected(TempDir, WithFiles(entries, PageNames(stem, start, end, "png"))) == PagePaths(stem, start, end, "png")
  {
    PageNamesNoSeparator(stem, start, end, "png");
    PageNamesAreImages(stem, start, end);
    PagePathsAscending(stem, start, end);
    FreshFolderSelectsSaved(entries, PageNames(stem, start, end, "png"));
  }

  /** The same for any saved image names whose paths ascend. */
  lemma FreshFolderSelectsSaved(entries: map<string, Kind>, names: seq<string>)
    requires ValidEntries(entries)
    requires forall f :: !IsImageFile(entries, f)
    requires forall n :: n in names ==> '/' !in n && IsImageName(n)
    requires Sorted(TempPaths(names)) && Distinct(TempPaths(names))
    ensures Selected(TempDir, WithFiles(entries, names)) == TempPaths(names)
  {
    var folder := WithFiles(entries, names);
    WithFilesValid(entries, names);
    SelectedOrdered(TempDir, folder);
    forall x | x in Selected(TempDir, folder) ensures x in TempPaths(names) {
      SelectedIsSaved(entries, names, x);
    }
    forall x | x in TempPaths(names) ensures x in Selected(TempDir, folder) {
      SavedIsSelected(entries, names, x);
    }
    SortedUnique(Selected(TempDir, folder), TempPaths(names));
  }

  /** On a folder without earlier images, everything selected was saved by this run. */
  lemma SelectedIsSaved(entries: map<string, Kind>, names: seq<string>, x: string)
    requires ValidEntries(WithFiles(entries, names))
    requires forall f :: !IsImageFile(entries, f)
    requires x in Selected(TempDir, WithFiles(entries, names))
    ensures x in TempPaths(names)
  {
    var f := SelectedSource(TempDir, WithFiles(entries, names), x);
    WithFilesAt(entries, names, f);
    // no earlier image file: the selected one was saved by this run
    assert !IsImageFile(entries, f);
    var k :| 0 <= k < |names| && names[k] == f;
    assert TempPaths(names)[k] == x;
  }

  /** Every saved image is selected. */
  lemma SavedIsSelected(entries: map<string, Kind>, names: seq<string>, x: string)
    requires ValidEntries(WithFiles(entries, names))
    requires forall n :: n in names ==> '/' !in n && IsImageName(n)
    requires x in TempPaths(names)
    ensures x in Selected(TempDir, WithFiles(entries, names))
  {
    var k :| 0 <= k < |names| && TempPaths(names)[k] == x;
    var n := names[k];
    WithFilesAt(entries, names, n);
    SelectedMember(TempDir, WithFiles(entries, names), n);
  }

  /** Images already in the folder are recognised too, whether or not this run produced them. */
  lemma LeftoverImagesAreSelected(entries: map<string, Kind>, names: seq<string>, f: string)
    requires ValidEntries(entries) && forall n :: n in names ==> '/' !in n
    requires IsImageFile(entries, f)
    ensures PathJoin(TempDir, f) in Selected(TempDir, WithFiles(entries, names))
  {
    WithFilesValid(entries, names);
    WithFilesEntries(entries, names);
    SelectedSpec(TempDir, WithFiles(entries, names));
    assert IsImageFile(WithFiles(entries, names), f);
  }

  /** A three-page document without page options: pages 0001, 0002 and 0003. */
  lemma ThreePageDocument(stem: string)
    ensures var start := ResolveStart(ToZeroBased(None));
            var end := ResolveEnd(ToZeroBased(None), 3);
            PageNames(stem, start, end, "png") ==
              [stem + "_page_0001.png", stem + "_page_0002.png", stem + "_page_0003.png"]
  {
    assert |PageIndices(0, 2)| == 3;
    Pad4OneDigit(1);
    Pad4OneDigit(2);
    Pad4OneDigit(3);
    assert PageFileName(stem, 0, "png") == stem + "_page_0001.png";
    assert PageFileName(stem, 1, "png") == stem + "_page_0002.png";
    assert PageFileName(stem, 2, "png") == stem + "_page_0003.png";
  }

  /** `--first-page 2 --last-page 2` on a five-page document: exactly page 0002. */
  lemma SecondPageOnly(stem: string)
    ensures var start := ResolveStart(ToZeroBased(Some(2)));
            var end := ResolveEnd(ToZeroBased(Some(2)), 5);
            PageNames(stem, start, end, "png") == [stem + "_page_0002.png"]
  {
    assert |PageIndices(1, 1)| == 1;
    Pad4OneDigit(2);
    assert PageFileName(stem, 1, "png") == stem + "_page_0002.png";
  }
}
