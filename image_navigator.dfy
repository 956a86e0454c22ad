// Navigation between the images of one directory: the directory filter and
// sort, the circular previous/next index, and the choice of the target file.
// The directory listing, `dirname`, `basename` and `join` are platform calls
// outside the model: the listing and the base name are inputs, and the
// navigation answers with the chosen file name.  The supported extensions
// are a parameter as well.
module ImageNavigator {
  import opened Common

  datatype DirEntry = DirEntry(name: string, isFile: bool)
  datatype Direction = Previous | Next | Last

  // ---------------------------------------------------------------------
  // Directory listing

  /** The entry filter: a file whose lower-cased name ends with "." + a supported extension. */
  predicate IsImageEntry(e: DirEntry, supportedExts: seq<string>) {
    e.isFile && exists k :: 0 <= k < |supportedExts| && EndsWith(ToLower(e.name), "." + supportedExts[k])
  }

  function ImageNames(entries: seq<DirEntry>, supportedExts: seq<string>): (names: seq<string>)
    ensures |names| <= |entries|
  {
    if |entries| == 0 then []
    else
      var rest := ImageNames(entries[1..], supportedExts);
      if IsImageEntry(entries[0], supportedExts) then [entries[0].name] + rest else rest
  }

  /** Code-unit order on strings, as the default array sort compares them. */
  predicate StrLe(a: string, b: string)
    decreases |a|
  {
    |a| == 0 || (|b| > 0 && (a[0] < b[0] || (a[0] == b[0] && StrLe(a[1..], b[1..]))))
  }

  lemma {:induction false} StrLeTotal(a: string, b: string)
    ensures StrLe(a, b) || StrLe(b, a)
    decreases |a|
  {
    if |a| > 0 && |b| > 0 && a[0] == b[0] {
      StrLeTotal(a[1..], b[1..]);
    }
  }

  predicate Sorted(s: seq<string>) {
    forall i :: 0 < i < |s| ==> StrLe(s[i - 1], s[i])
  }

  function Insert(x: string, s: seq<string>): (r: seq<string>)
    requires Sorted(s)
    ensures Sorted(r)
    ensures multiset(r) == multiset(s) + multiset{x}
    ensures |r| == |s| + 1
    ensures |s| > 0 ==> r[0] == x || r[0] == s[0]
  {
    if |s| == 0 then [x]
    else if StrLe(x, s[0]) then [x] + s
    else
      assert StrLe(s[0], x) by { StrLeTotal(x, s[0]); }
      var tail := Insert(x, s[1..]);
      assert s == [s[0]] + s[1..];
      [s[0]] + tail
  }

  /** The default `sort`: an ordered permutation of its input. */
  function Sort(s: seq<string>): (r: seq<string>)
    ensures Sorted(r)
    ensures multiset(r) == multiset(s)
  {
    if |s| == 0 then []
    else
      assert s == [s[0]] + s[1..];
      Insert(s[0], Sort(s[1..]))
  }

  /**
   * `loadImageFilesInDirectory`: the sorted names of the image files; a
   * listing that fails yields no names.
   */
  function LoadImageFilesInDirectory(listing: Result<seq<DirEntry>, string>, supportedExts: seq<string>)
    : (names: seq<string>)
    ensures listing.Err? ==> names == []
    ensures Sorted(names)
    ensures listing.Ok? ==> multiset(names) == multiset(ImageNames(listing.value, supportedExts))
  {
    match listing
    case Err(_) => []
    case Ok(entries) => Sort(ImageNames(entries, supportedExts))
  }

  /** A name is listed iff it is the name of an image entry of the directory. */
  lemma {:induction false} ImageNamesMembership(entries: seq<DirEntry>, supportedExts: seq<string>, name: string)
    ensures name in ImageNames(entries, supportedExts) <==>
      exists i :: 0 <= i < |entries| && entries[i].name == name && IsImageEntry(entries[i], supportedExts)
  {
    if |entries| > 0 {
      ImageNamesMembership(entries[1..], supportedExts, name);
      if name in ImageNames(entries[1..], supportedExts) {
        var i :| 0 <= i < |entries[1..]| && entries[1..][i].name == name && IsImageEntry(entries[1..][i], supportedExts);
        assert entries[i + 1] == entries[1..][i];
      }
      if exists i :: 0 <= i < |entries| && entries[i].name == name && IsImageEntry(entries[i], supportedExts) {
        var i :| 0 <= i < |entries| && entries[i].name == name && IsImageEntry(entries[i], supportedExts);
        if i > 0 {
          assert entries[1..][i - 1] == entries[i];
        }
      }
    }
  }

  lemma LoadedNamesAreImages(entries: seq<DirEntry>, supportedExts: seq<string>, name: string)
    ensures name in LoadImageFilesInDirectory(Ok(entries), supportedExts) <==>
      exists i :: 0 <= i < |entries| && entries[i].name == name && IsImageEntry(entries[i], supportedExts)
  {
    var names := ImageNames(entries, supportedExts);
    assert name in LoadImageFilesInDirectory(Ok(entries), supportedExts) <==> name in multiset(names);
    ImageNamesMembership(entries, supportedExts, name);
  }

  // ---------------------------------------------------------------------
  // Circular index

  /** `calculateCircularIndex` for a position inside a non-empty list. */
  function CircularIndex(current: nat, direction: Direction, n: nat): (r: nat)
    requires current < n && direction != Last
    ensures r < n
  {
    if direction == Next then (current + 1) % n
    else if current == 0 then n - 1
    else current - 1
  }

  /** Stepping forward from the last position wraps to the first, and back from the first to the last. */
  lemma CircularWraps(n: nat)
    requires n > 0
    ensures CircularIndex(n - 1, Next, n) == 0
    ensures CircularIndex(0, Previous, n) == n - 1
  {
  }

  /** "next" and "previous" undo each other. */
  lemma CircularInverse(i: nat, n: nat)
    requires i < n
    ensures CircularIndex(CircularIndex(i, Next, n), Previous, n) == i
    ensures CircularIndex(CircularIndex(i, Previous, n), Next, n) == i
  {
    if i + 1 < n {
      assert (i + 1) % n == i + 1;
    }
    if i > 0 {
      assert (i - 1 + 1) % n == i;
    }
  }

  /** Elsewhere "next" is one step forward and "previous" one step back. */
  lemma CircularSteps(i: nat, n: nat)
    requires i < n
    ensures i + 1 < n ==> CircularIndex(i, Next, n) == i + 1
    ensures i > 0 ==> CircularIndex(i, Previous, n) == i - 1
  {
    if i + 1 < n {
      assert (i + 1) % n == i + 1;
    }
  }

  // ---------------------------------------------------------------------
  // Choosing the target

  /** `indexOf`: first position of `x`. */
  function IndexOf(s: seq<string>, x: string): (r: Option<nat>)
    ensures r.Some? ==> r.value < |s| && s[r.value] == x && forall j :: 0 <= j < r.value ==> s[j] != x
    ensures r.None? <==> x !in s
  {
    if |s| == 0 then None
    else if s[0] == x then Some(0)
    else match IndexOf(s[1..], x)
      case None => None
      case Some(i) => Some(i + 1)
  }

  /**
   * The index selection of `findImageInDirection`, over the loaded names:
   * no image or an unknown current file gives no target.
   */
  function FindImageInDirection(imageFilenames: seq<string>, currentBasename: string, direction: Direction)
    : (r: Option<string>)
    ensures r.Some? ==> r.value in imageFilenames
    ensures |imageFilenames| == 0 || currentBasename !in imageFilenames ==> r.None?
  {
    if |imageFilenames| == 0 then None
    else match IndexOf(imageFilenames, currentBasename)
      case None => None
      case Some(current) =>
        var newIndex := if direction == Last then |imageFilenames| - 1
                        else CircularIndex(current, direction, |imageFilenames|);
        Some(imageFilenames[newIndex])
  }

  /**
   * From the first occurrence of the current name at `i`, "next" selects the
   * name after it, or the first name from the end of the list, and
   * "previous" the name before it, or the final name from the start.
   */
  lemma StepSelectsNeighbour(imageFilenames: seq<string>, i: nat)
    requires i < |imageFilenames|
    requires forall j :: 0 <= j < i ==> imageFilenames[j] != imageFilenames[i]
    ensures var n, current := |imageFilenames|, imageFilenames[i];
      FindImageInDirection(imageFilenames, current, Next) ==
        Some(if i + 1 < n then imageFilenames[i + 1] else imageFilenames[0]) &&
      FindImageInDirection(imageFilenames, current, Previous) ==
        Some(if i > 0 then imageFilenames[i - 1] else imageFilenames[n - 1])
  {
    var n := |imageFilenames|;
    assert IndexOf(imageFilenames, imageFilenames[i]) == Some(i);
    CircularSteps(i, n);
    CircularWraps(n);
  }

  /** With the current file present, "last" selects the final name. */
  lemma LastSelectsFinal(imageFilenames: seq<string>, currentBasename: string)
    requires currentBasename in imageFilenames
    ensures FindImageInDirection(imageFilenames, currentBasename, Last) == Some(imageFilenames[|imageFilenames| - 1])
  {
  }

  /** Going to the next image and then to the previous one returns to the current image. */
  lemma NextThenPrevious(imageFilenames: seq<string>, current: nat)
    requires current < |imageFilenames|
    requires forall i, j :: 0 <= i < j < |imageFilenames| ==> imageFilenames[i] != imageFilenames[j]
    ensures var next := FindImageInDirection(imageFilenames, imageFilenames[current], Next);
      next.Some? && FindImageInDirection(imageFilenames, next.value, Previous) == Some(imageFilenames[current])
  {
    var n := |imageFilenames|;
    var k := CircularIndex(current, Next, n);
    assert IndexOf(imageFilenames, imageFilenames[current]) == Some(current);
    assert IndexOf(imageFilenames, imageFilenames[k]) == Some(k);
    CircularInverse(current, n);
  }
}
