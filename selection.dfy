/**
 * Which images `process_images` recognises: every regular file of the
 * folder whose lower-cased name ends in `.png`, `.jpg` or `.jpeg`, as a
 * joined path, in sorted order. The folder is scanned as it is, so files
 * left there by earlier runs are recognised too.
 */
module Selection {
  import opened Strings
  import opened Paths
  import opened Sorting

  /** What `os.path.isfile` distinguishes among directory entries. */
  datatype Kind = RegularFile | Directory

  const ImageExtensions: seq<string> := [".png", ".jpg", ".jpeg"]

  /** Directory entry names never contain a separator. */
  predicate ValidEntries(entries: map<string, Kind>)
  {
    forall f :: f in entries ==> '/' !in f
  }

  /** `listing` is what `os.listdir` may return for `entries`: each name once, in some order. */
  ghost predicate Enumerates(listing: seq<string>, entries: map<string, Kind>)
  {
    Distinct(listing) && forall f :: f in listing <==> f in entries
  }

  /** `any(name.lower().endswith(ext) for ext in ['.png', '.jpg', '.jpeg'])`. */
  predicate IsImageName(name: string)
  {
    exists k :: 0 <= k < |ImageExtensions| && EndsWith(Lower(name), ImageExtensions[k])
  }

  /** The entry is a regular file with an image extension. */
  predicate IsImageFile(entries: map<string, Kind>, name: string)
  {
    name in entries && entries[name] == RegularFile && IsImageName(name)
  }

  /** The list comprehension of `process_images` before `sorted`: image files in listing order. */
  function Candidates(folder: string, listing: seq<string>, entries: map<string, Kind>): (r: seq<string>)
    ensures forall f :: f in listing && IsImageFile(entries, f) ==> PathJoin(folder, f) in r
    ensures forall p :: p in r ==> exists f :: f in listing && IsImageFile(entries, f) && p == PathJoin(folder, f)
  {
    if listing == [] then []
    else
      var rest := Candidates(folder, listing[1..], entries);
      assert forall f :: f in listing ==> f == listing[0] || f in listing[1..];
      if IsImageFile(entries, listing[0]) then [PathJoin(folder, listing[0])] + rest else rest
  }

  /** The image paths `process_images` will recognise, in that order. */
  function SelectImages(folder: string, listing: seq<string>, entries: map<string, Kind>): seq<string>
  {
    SortStrings(Candidates(folder, listing, entries))
  }

  /** Distinct names give distinct joined paths. */
  lemma {:induction false} CandidatesDistinct(folder: string, listing: seq<string>, entries: map<string, Kind>)
    requires Distinct(listing) && forall f :: f in listing ==> '/' !in f
    ensures Distinct(Candidates(folder, listing, entries))
  {
    if listing != [] {
      var f := listing[0];
      CandidatesDistinct(folder, listing[1..], entries);
      if IsImageFile(entries, f) {
        var rest := Candidates(folder, listing[1..], entries);
        forall p | p in rest ensures p != PathJoin(folder, f) {
          var g :| g in listing[1..] && IsImageFile(entries, g) && p == PathJoin(folder, g);
          BasenameOfJoin(folder, f);
          BasenameOfJoin(folder, g);
        }
      }
    }
  }

  /**
   * The selection is sorted, repeats nothing, and holds the joined path of
   * exactly those listed names that are image files.
   */
  lemma SelectImagesSpec(folder: string, listing: seq<string>, entries: map<string, Kind>)
    requires Distinct(listing) && forall f :: f in listing ==> '/' !in f
    ensures Sorted(SelectImages(folder, listing, entries))
    ensures Distinct(SelectImages(folder, listing, entries))
    ensures forall f :: '/' !in f ==>
      (PathJoin(folder, f) in SelectImages(folder, listing, entries) <==> f in listing && IsImageFile(entries, f))
    ensures forall p :: p in SelectImages(folder, listing, entries) ==>
      exists f :: f in listing && IsImageFile(entries, f) && p == PathJoin(folder, f)
  {
    var c := Candidates(folder, listing, entries);
    SortStringsCorrect(c);
    CandidatesDistinct(folder, listing, entries);
    forall x ensures x in SelectImages(folder, listing, entries) <==> x in c {
      assert x in SortStrings(c) <==> x in multiset(SortStrings(c));
    }
    forall f | '/' !in f && PathJoin(folder, f) in c ensures f in listing && IsImageFile(entries, f) {
      var g :| g in listing && IsImageFile(entries, g) && PathJoin(folder, f) == PathJoin(folder, g);
      BasenameOfJoin(folder, f);
      BasenameOfJoin(folder, g);
    }
  }

  /**
   * The order in which `os.listdir` reports the folder does not matter:
   * two listings of one folder select the same images in the same order.
   */
  lemma SelectionIgnoresListingOrder(folder: string, l1: seq<string>, l2: seq<string>, entries: map<string, Kind>)
    requires ValidEntries(entries) && Enumerates(l1, entries) && Enumerates(l2, entries)
    ensures SelectImages(folder, l1, entries) == SelectImages(folder, l2, entries)
  {
    var s1, s2 := SelectImages(folder, l1, entries), SelectImages(folder, l2, entries);
    SelectImagesSpec(folder, l1, entries);
    SelectImagesSpec(folder, l2, entries);
    forall p ensures p in s1 <==> p in s2 {
      if p in s1 {
        var f :| f in l1 && IsImageFile(entries, f) && p == PathJoin(folder, f);
      }
      if p in s2 {
        var f :| f in l2 && IsImageFile(entries, f) && p == PathJoin(folder, f);
      }
    }
    SortedUnique(s1, s2);
  }

  lemma {:induction false} SetEnumerable(s: set<string>)
    ensures exists l :: Distinct(l) && forall f :: f in l <==> f in s
    decreases s
  {
    if s == {} {
      assert Distinct([]) && forall f :: f in [] <==> f in s;
    } else {
      var x :| x in s;
      SetEnumerable(s - {x});
      var l :| Distinct(l) && forall f :: f in l <==> f in s - {x};
      assert Distinct(l + [x]) && forall f :: f in l + [x] <==> f in s;
    }
  }

  /** Every folder can be listed. */
  lemma ListingExists(entries: map<string, Kind>)
    ensures exists l :: Enumerates(l, entries)
  {
    SetEnumerable(entries.Keys);
    var l :| Distinct(l) && forall f :: f in l <==> f in entries.Keys;
    assert Enumerates(l, entries);
  }

  /** The images selected from a folder, whatever order its listing comes in. */
  ghost function Selected(folder: string, entries: map<string, Kind>): seq<string>
  {
    ListingExists(entries);
    var l :| Enumerates(l, entries);
    SelectImages(folder, l, entries)
  }

  /** The selection from any listing of the folder is `Selected`. */
  lemma SelectedIsAnyListing(folder: string, listing: seq<string>, entries: map<string, Kind>)
    requires ValidEntries(entries) && Enumerates(listing, entries)
    ensures SelectImages(folder, listing, entries) == Selected(folder, entries)
  {
    ListingExists(entries);
    var l :| Enumerates(l, entries) && Selected(folder, entries) == SelectImages(folder, l, entries);
    SelectionIgnoresListingOrder(folder, listing, l, entries);
  }

  /** `Selected` characterised by the folder alone. */
  lemma SelectedSpec(folder: string, entries: map<string, Kind>)
    requires ValidEntries(entries)
    ensures Sorted(Selected(folder, entries)) && Distinct(Selected(folder, entries))
    ensures forall f :: '/' !in f ==> (PathJoin(folder, f) in Selected(folder, entries) <==> IsImageFile(entries, f))
    ensures forall p :: p in Selected(folder, entries) ==> exists f :: IsImageFile(entries, f) && p == PathJoin(folder, f)
  {
    ListingExists(entries);
    var l :| Enumerates(l, entries);
    SelectedIsAnyListing(folder, l, entries);
    SelectImagesSpec(folder, l, entries);
  }

  /** The selection is in sorted order and repeats no path. */
  lemma SelectedOrdered(folder: string, entries: map<string, Kind>)
    requires ValidEntries(entries)
    ensures Sorted(Selected(folder, entries)) && Distinct(Selected(folder, entries))
  {
    SelectedSpec(folder, entries);
  }

  /** A name's joined path is selected exactly when the name is an image file of the folder. */
  lemma SelectedMember(folder: string, entries: map<string, Kind>, f: string)
    requires ValidEntries(entries) && '/' !in f
    ensures PathJoin(folder, f) in Selected(folder, entries) <==> IsImageFile(entries, f)
  {
    SelectedSpec(folder, entries);
  }

  /** Each selected path is the joined path of an image file of the folder. */
  lemma SelectedSource(folder: string, entries: map<string, Kind>, x: string) returns (f: string)
    requires ValidEntries(entries) && x in Selected(folder, entries)
    ensures IsImageFile(entries, f) && x == PathJoin(folder, f)
  {
    SelectedSpec(folder, entries);
    f :| IsImageFile(entries, f) && x == PathJoin(folder, f);
  }
}
