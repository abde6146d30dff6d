/** FrameWatcher: which directory entries a scan takes up, and in what order.
    A listing stands for one `os.listdir` of the images folder; each entry
    carries what `cv2.imread` makes of that file at that moment (`None` for
    an unreadable file and for a read that throws). */
module FrameWatcher {
  import opened Wrappers
  import opened Strings
  import StableSort
  import opened SegmentEncoder

  datatype DirEntry = DirEntry(name: string, image: Option<Frame>)

  function Name(e: DirEntry): string { e.name }

  /** The sort key `os.path.splitext(x)[0]`. */
  function Stem(e: DirEntry): string { SplitExt(e.name).0 }

  /** The list comprehension keeping image file names. */
  function ImageFiles(listing: seq<DirEntry>): seq<DirEntry> {
    if listing == [] then []
    else (if IsImageName(listing[0].name) then [listing[0]] else []) + ImageFiles(listing[1..])
  }

  /** `current_files`: the image entries, stably sorted by stem. */
  function CurrentFiles(listing: seq<DirEntry>): seq<DirEntry> {
    StableSort.Sort(ImageFiles(listing), Stem, false)
  }

  /** The list comprehension dropping names already processed. */
  function Unprocessed(files: seq<DirEntry>, processed: set<string>): seq<DirEntry> {
    if files == [] then []
    else (if files[0].name !in processed then [files[0]] else []) + Unprocessed(files[1..], processed)
  }

  /** `new_files`: what one scan tries to decode, in this order. */
  function NewFiles(listing: seq<DirEntry>, processed: set<string>): seq<DirEntry> {
    Unprocessed(CurrentFiles(listing), processed)
  }

  /** Reference definition: the wanted entries in directory order, unsorted. */
  function WantedFiles(listing: seq<DirEntry>, processed: set<string>): seq<DirEntry> {
    Unprocessed(ImageFiles(listing), processed)
  }

  /** Names are unique within one listing, as in a real directory. */
  ghost predicate UniqueNames(names: seq<string>) {
    forall n :: multiset(names)[n] <= 1
  }

  lemma {:induction false} ImageFilesMembers(listing: seq<DirEntry>, e: DirEntry)
    ensures e in ImageFiles(listing) <==> e in listing && IsImageName(e.name)
  {
    if listing != [] {
      ImageFilesMembers(listing[1..], e);
      assert listing == [listing[0]] + listing[1..];
    }
  }

  lemma {:induction false} UnprocessedMembers(files: seq<DirEntry>, processed: set<string>, e: DirEntry)
    ensures e in Unprocessed(files, processed) <==> e in files && e.name !in processed
  {
    if files != [] {
      UnprocessedMembers(files[1..], processed, e);
      assert files == [files[0]] + files[1..];
    }
  }

  lemma {:induction false} UnprocessedSorted(files: seq<DirEntry>, processed: set<string>)
    requires StableSort.Sorted(files, Stem, false)
    ensures StableSort.Sorted(Unprocessed(files, processed), Stem, false)
  {
    if files != [] {
      var rest := files[1..];
      assert StableSort.Sorted(rest, Stem, false) by {
        forall i, j | 0 <= i < j < |rest| ensures !StableSort.Before(Stem(rest[j]), Stem(rest[i]), false) {
          assert rest[i] == files[i + 1] && rest[j] == files[j + 1];
        }
      }
      UnprocessedSorted(rest, processed);
      if files[0].name !in processed {
        forall y | y in Unprocessed(rest, processed) ensures !StableSort.Before(Stem(y), Stem(files[0]), false) {
          UnprocessedMembers(rest, processed, y);
          var m :| 0 <= m < |rest| && rest[m] == y;
          assert files[m + 1] == y;
        }
        StableSort.SortedCons(files[0], Unprocessed(rest, processed), Stem, false);
      }
    }
  }

  lemma {:induction false} UnprocessedKeyClass(files: seq<DirEntry>, processed: set<string>, k: string)
    ensures StableSort.KeyClass(Unprocessed(files, processed), Stem, k)
         == Unprocessed(StableSort.KeyClass(files, Stem, k), processed)
  {
    if files != [] {
      var x := files[0];
      UnprocessedKeyClass(files[1..], processed, k);
      var u := Unprocessed(files[1..], processed);
      var c := StableSort.KeyClass(files[1..], Stem, k);
      if x.name !in processed {
        StableSort.KeyClassCons(x, u, Stem, k);
      } else {
        assert Unprocessed(files, processed) == u;
      }
      if Stem(x) == k {
        assert StableSort.KeyClass(files, Stem, k) == [x] + c;
        assert ([x] + c)[1..] == c;
      } else {
        assert StableSort.KeyClass(files, Stem, k) == c;
      }
    }
  }

  lemma {:induction false} UnprocessedNames(files: seq<DirEntry>, processed: set<string>)
    ensures multiset(StableSort.Project(Unprocessed(files, processed), Name))
         <= multiset(StableSort.Project(files, Name))
  {
    if files != [] {
      UnprocessedNames(files[1..], processed);
      var u := Unprocessed(files[1..], processed);
      assert StableSort.Project(files, Name) == [files[0].name] + StableSort.Project(files[1..], Name);
      if files[0].name !in processed {
        assert StableSort.Project([files[0]] + u, Name) == [files[0].name] + StableSort.Project(u, Name);
      } else {
        assert Unprocessed(files, processed) == u;
      }
    }
  }

  lemma {:induction false} ImageFilesNames(listing: seq<DirEntry>)
    ensures multiset(StableSort.Project(ImageFiles(listing), Name))
         <= multiset(StableSort.Project(listing, Name))
  {
    if listing != [] {
      ImageFilesNames(listing[1..]);
      var u := ImageFiles(listing[1..]);
      assert StableSort.Project(listing, Name) == [listing[0].name] + StableSort.Project(listing[1..], Name);
      if IsImageName(listing[0].name) {
        assert StableSort.Project([listing[0]] + u, Name) == [listing[0].name] + StableSort.Project(u, Name);
      } else {
        assert ImageFiles(listing) == u;
      }
    }
  }

  /** A scan considers exactly the image entries whose names are not yet
      processed. */
  lemma NewFilesMembers(listing: seq<DirEntry>, processed: set<string>, e: DirEntry)
    ensures e in NewFiles(listing, processed)
        <==> e in listing && IsImageName(e.name) && e.name !in processed
  {
    UnprocessedMembers(CurrentFiles(listing), processed, e);
    StableSort.SortPermutation(ImageFiles(listing), Stem, false);
    assert e in CurrentFiles(listing) <==> e in multiset(ImageFiles(listing));
    ImageFilesMembers(listing, e);
  }

  /** The entries are ordered by stem, entries with the same stem keep their
      directory order, and nothing is lost or repeated relative to the
      unsorted reference. */
  lemma NewFilesOrdered(listing: seq<DirEntry>, processed: set<string>)
    ensures StableSort.Sorted(NewFiles(listing, processed), Stem, false)
    ensures forall k :: StableSort.KeyClass(NewFiles(listing, processed), Stem, k)
                     == StableSort.KeyClass(WantedFiles(listing, processed), Stem, k)
    ensures multiset(NewFiles(listing, processed)) == multiset(WantedFiles(listing, processed))
  {
    StableSort.SortSorted(ImageFiles(listing), Stem, false);
    UnprocessedSorted(CurrentFiles(listing), processed);
    forall k ensures StableSort.KeyClass(NewFiles(listing, processed), Stem, k)
                  == StableSort.KeyClass(WantedFiles(listing, processed), Stem, k) {
      UnprocessedKeyClass(CurrentFiles(listing), processed, k);
      StableSort.SortStable(ImageFiles(listing), Stem, false, k);
      UnprocessedKeyClass(ImageFiles(listing), processed, k);
    }
    StableSort.SameClassesPermutation(NewFiles(listing, processed), WantedFiles(listing, processed), Stem);
  }

  /** No name occurs in the scan more often than in the listing. */
  lemma NewFilesNames(listing: seq<DirEntry>, processed: set<string>)
    ensures multiset(StableSort.Project(NewFiles(listing, processed), Name))
         <= multiset(StableSort.Project(listing, Name))
  {
    UnprocessedNames(CurrentFiles(listing), processed);
    StableSort.SortProject(ImageFiles(listing), Stem, false, Name);
    ImageFilesNames(listing);
  }

  lemma UniqueAt(names: seq<string>, i: int, j: int)
    requires UniqueNames(names) && 0 <= i < |names| && 0 <= j < |names| && names[i] == names[j]
    ensures i == j
  {
    if i < j {
      TwiceInBag(names, i, j);
    } else if j < i {
      TwiceInBag(names, j, i);
    }
  }

  lemma TwiceInBag(names: seq<string>, lo: int, hi: int)
    requires 0 <= lo < hi < |names| && names[lo] == names[hi]
    ensures multiset(names)[names[lo]] >= 2
  {
    assert names == names[..lo] + [names[lo]] + names[lo + 1..hi] + [names[hi]] + names[hi + 1..];
  }

  /** A listing with unique names gives a scan with unique names. */
  lemma NewFilesUnique(listing: seq<DirEntry>, processed: set<string>)
    requires UniqueNames(StableSort.Project(listing, Name))
    ensures UniqueNames(StableSort.Project(NewFiles(listing, processed), Name))
  {
    NewFilesNames(listing, processed);
  }
}
