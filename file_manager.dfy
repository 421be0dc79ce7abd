/** Folder scanning: the supported images of a directory listing in path
    order, the position of a file in that list, and the file-dialog
    filter. */
module Files {
  import opened Common
  import opened Format
  import opened Sorting

  /** The paths of the entries that could be read (filter_map on
      entry.ok(), then entry.path()), in listing order. */
  function ReadablePaths<P, E>(entries: seq<Result<P, E>>): (r: seq<P>)
    ensures |r| <= |entries|
    decreases |entries|
  {
    if entries == [] then []
    else (if entries[0].Ok? then [entries[0].value] else []) + ReadablePaths(entries[1..])
  }

  /** The paths whose format is supported, in the same order. */
  function SupportedPaths<P>(extension: P -> Option<OsStr>, paths: seq<P>): (r: seq<P>)
    ensures |r| <= |paths|
    ensures forall i :: 0 <= i < |r| ==> IsSupported(extension, r[i])
    decreases |paths|
  {
    if paths == [] then []
    else (if IsSupported(extension, paths[0]) then [paths[0]] else []) + SupportedPaths(extension, paths[1..])
  }

  /** What scan_directory collects before sorting. */
  function Listed<P, E>(extension: P -> Option<OsStr>, entries: seq<Result<P, E>>): (r: seq<P>)
    ensures |r| <= |entries|
    ensures forall i :: 0 <= i < |r| ==> IsSupported(extension, r[i])
  {
    SupportedPaths(extension, ReadablePaths(entries))
  }

  lemma {:induction false} ReadablePathsMembers<P, E>(entries: seq<Result<P, E>>, p: P)
    ensures p in ReadablePaths(entries) <==> exists i :: 0 <= i < |entries| && entries[i].Ok? && entries[i].value == p
    decreases |entries|
  {
    if entries != [] {
      ReadablePathsMembers(entries[1..], p);
      if exists i :: 0 <= i < |entries| && entries[i].Ok? && entries[i].value == p {
        var i :| 0 <= i < |entries| && entries[i].Ok? && entries[i].value == p;
        if i > 0 {
          assert entries[1..][i - 1] == entries[i];
        }
      }
      if exists i :: 0 <= i < |entries[1..]| && entries[1..][i].Ok? && entries[1..][i].value == p {
        var i :| 0 <= i < |entries[1..]| && entries[1..][i].Ok? && entries[1..][i].value == p;
        assert entries[i + 1] == entries[1..][i];
      }
    }
  }

  lemma {:induction false} SupportedPathsMembers<P>(extension: P -> Option<OsStr>, paths: seq<P>, p: P)
    ensures p in SupportedPaths(extension, paths) <==> p in paths && IsSupported(extension, p)
    decreases |paths|
  {
    if paths != [] {
      SupportedPathsMembers(extension, paths[1..], p);
      assert paths == [paths[0]] + paths[1..];
    }
  }

  /** A path is collected exactly when some readable entry has it and its
      format is supported; unreadable entries contribute nothing. */
  lemma ListedMembers<P, E>(extension: P -> Option<OsStr>, entries: seq<Result<P, E>>, p: P)
    ensures p in Listed(extension, entries)
            <==> IsSupported(extension, p) && exists i :: 0 <= i < |entries| && entries[i].Ok? && entries[i].value == p
  {
    ReadablePathsMembers(entries, p);
    SupportedPathsMembers(extension, ReadablePaths(entries), p);
  }

  /** scan_directory over a listing: a failed read_dir is returned as the
      error; otherwise the supported paths, sorted. */
  method ScanDirectory<P(!new), E>(listing: Result<seq<Result<P, E>>, E>, extension: P -> Option<OsStr>,
                                   le: (P, P) -> bool)
    returns (r: Result<seq<P>, E>)
    requires TotalOrder(le)
    ensures listing.Err? ==> r.Err? && r.error == listing.error
    ensures listing.Ok? ==> r.Ok? && Sorted(le, r.value)
    ensures listing.Ok? ==> multiset(r.value) == multiset(Listed(extension, listing.value))
  {
    match listing {
      case Err(e) =>
        r := Err(e);
      case Ok(entries) =>
        var collected := Listed(extension, entries);
        var imagePaths := new P[|collected|](i requires 0 <= i < |collected| => collected[i]);
        assert imagePaths[..] == collected;
        SortInPlace(imagePaths, le);
        r := Ok(imagePaths[..]);
    }
  }

  /** find_index_of_file: the first position holding target. */
  function FindIndexOfFile<P(==)>(paths: seq<P>, target: P): (r: Option<nat>)
    ensures r.Some? ==> r.value < |paths| && paths[r.value] == target
    ensures r.Some? ==> forall j :: 0 <= j < r.value ==> paths[j] != target
    ensures r.None? <==> target !in paths
  {
    Position(paths, target)
  }

  /** get_supported_file_filter: the dialog label and the extension list,
      every entry of which is recognised. */
  function GetSupportedFileFilter(): (r: (string, seq<string>))
    ensures r.0 == "Imagen" && r.1 == SupportedExtensions()
    ensures forall i :: 0 <= i < |r.1| ==> FromExtension(r.1[i]).Some?
  {
    AllSupportedRecognised();
    ("Imagen", SupportedExtensions())
  }

  /** Lexicographic order on names, which is how Path compares two file
      names of one directory. */
  predicate NameLe(a: string, b: string)
    decreases |a|
  {
    |a| == 0 || (|b| > 0 && (a[0] < b[0] || (a[0] == b[0] && NameLe(a[1..], b[1..]))))
  }

  lemma {:induction false} NameLeTotal(a: string, b: string)
    ensures NameLe(a, b) || NameLe(b, a)
    decreases |a|
  {
    if |a| > 0 && |b| > 0 && a[0] == b[0] {
      NameLeTotal(a[1..], b[1..]);
    }
  }

  lemma {:induction false} NameLeAntisymmetric(a: string, b: string)
    requires NameLe(a, b) && NameLe(b, a)
    ensures a == b
    decreases |a|
  {
    if |a| > 0 {
      NameLeAntisymmetric(a[1..], b[1..]);
      assert a == [a[0]] + a[1..] && b == [b[0]] + b[1..];
    }
  }

  lemma {:induction false} NameLeTransitive(a: string, b: string, c: string)
    requires NameLe(a, b) && NameLe(b, c)
    ensures NameLe(a, c)
    decreases |a|
  {
    if |a| > 0 && a[0] == b[0] && b[0] == c[0] {
      NameLeTransitive(a[1..], b[1..], c[1..]);
    }
  }

  /** The name order meets Rust's Ord contract. */
  lemma NameOrderIsTotal()
    ensures TotalOrder(NameLe)
  {
    forall a, b ensures NameLe(a, b) || NameLe(b, a) {
      NameLeTotal(a, b);
    }
    forall a, b | NameLe(a, b) && NameLe(b, a) ensures a == b {
      NameLeAntisymmetric(a, b);
    }
    forall a, b, c | NameLe(a, b) && NameLe(b, c) ensures NameLe(a, c) {
      NameLeTransitive(a, b, c);
    }
  }

  /** The text after the last dot of a name, or None without a dot. */
  function NameExtension(name: string): Option<OsStr>
    decreases |name|
  {
    if |name| == 0 then None
    else if name[|name| - 1] == '.' then Some(Utf8(""))
    else match NameExtension(name[..|name| - 1])
      case None => None
      case Some(ext) => Some(Utf8(ext.text + [name[|name| - 1]]))
  }

  /** A name ending in "." and a dot-free text has that text as its
      extension. */
  lemma {:induction false} NameExtensionOfSuffix(stem: string, ext: string)
    requires '.' !in ext
    ensures NameExtension(stem + "." + ext) == Some(Utf8(ext))
    decreases |ext|
  {
    var name := stem + "." + ext;
    if |ext| > 0 {
      var init := ext[..|ext| - 1];
      assert '.' !in init by {
        forall c | c in init ensures c != '.' { assert c in ext; }
      }
      NameExtensionOfSuffix(stem, init);
      assert name[..|name| - 1] == stem + "." + init;
      assert init + [ext[|ext| - 1]] == ext;
    } else {
      assert name[|name| - 1] == '.';
    }
  }

  datatype IoError = PermissionDenied | NotFound

  /** A listing of b.png, a.jpg, c.bmp and readme.txt, all readable. */
  function ExampleListing(): seq<Result<string, IoError>> {
    [Ok("b.png"), Ok("a.jpg"), Ok("c.bmp"), Ok("readme.txt")]
  }

  /** A name stem.ext is supported exactly when ext is on the list. */
  lemma NameSupported(stem: string, ext: string)
    requires '.' !in ext
    ensures IsSupported(NameExtension, stem + "." + ext) <==> ToLower(ext) in SupportedExtensions()
  {
    NameExtensionOfSuffix(stem, ext);
  }

  /** Which names of the example listing are supported. */
  lemma ExampleSupported()
    ensures IsSupported(NameExtension, "b.png") && IsSupported(NameExtension, "a.jpg")
    ensures IsSupported(NameExtension, "c.bmp") && !IsSupported(NameExtension, "readme.txt")
  {
    ExampleName("b.png", "b", "png");
    ExampleName("a.jpg", "a", "jpg");
    ExampleName("c.bmp", "c", "bmp");
    ExampleName("readme.txt", "readme", "txt");
  }

  /** One name of the example: supported exactly when its lower-case
      extension is on the list. */
  lemma ExampleName(name: string, stem: string, ext: string)
    requires name == stem + "." + ext && '.' !in ext && ToLower(ext) == ext
    ensures IsSupported(NameExtension, name) <==> ext in SupportedExtensions()
  {
    NameSupported(stem, ext);
  }

  /** The scan keeps the three images, in listing order, before sorting. */
  lemma ExampleListed()
    ensures Listed(NameExtension, ExampleListing()) == ["b.png", "a.jpg", "c.bmp"]
  {
    var entries := ExampleListing();
    ExampleSupported();
    assert ReadablePaths(entries) == ["b.png", "a.jpg", "c.bmp", "readme.txt"];
    var paths := ReadablePaths(entries);
    assert SupportedPaths(NameExtension, paths[3..]) == [] by {
      assert paths[3..][1..] == [];
    }
  }

  /** A folder holding b.png, a.jpg, c.bmp and readme.txt scans to
      [a.jpg, b.png, c.bmp]. */
  method ScanExample() returns (r: Result<seq<string>, IoError>)
    ensures r == Ok(["a.jpg", "b.png", "c.bmp"])
  {
    NameOrderIsTotal();
    r := ScanDirectory(Ok(ExampleListing()), NameExtension, NameLe);
    ExampleExpected();
    SortedUnique(NameLe, r.value, ["a.jpg", "b.png", "c.bmp"]);
  }

  /** [a.jpg, b.png, c.bmp] is a sorted permutation of what the example
      listing collects. */
  lemma ExampleExpected()
    ensures var expected := ["a.jpg", "b.png", "c.bmp"];
            Sorted(NameLe, expected) && multiset(Listed(NameExtension, ExampleListing())) == multiset(expected)
  {
    ExampleListed();
    ExampleSorted(["a.jpg", "b.png", "c.bmp"]);
  }

  lemma ExampleSorted(expected: seq<string>)
    requires expected == ["a.jpg", "b.png", "c.bmp"]
    ensures Sorted(NameLe, expected)
  {
    forall i, j | 0 <= i < j < 3 ensures NameLe(expected[i], expected[j]) {
      assert expected[i][0] < expected[j][0];
    }
  }
}
