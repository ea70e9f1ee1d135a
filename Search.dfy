/**
 * Which files `Main` searches (MainModule.cs, lines 149-180): the search pattern follows from
 * the search depth, and the directory option is either one directory, whose listing failure
 * escapes `Main`, or several separated by ';', each collected in turn and skipped, with a
 * message, when its collection throws.
 */
module Search {
  import opened Wrappers
  import opened Text
  import opened FileCollectionMod

  const ShallowFilesToSearch := "messages.p*;TBT*"
  const DeepFilesToSearch := "*"

  /** Lines 149-153: every file for the depth "deep" exactly, the two log-file patterns for any other. */
  function SearchPatternFor(searchDepth: string): (r: string)
    ensures r == DeepFilesToSearch <==> searchDepth == "deep"
    ensures r == ShallowFilesToSearch <==> searchDepth != "deep"
  {
    if searchDepth == "deep" then DeepFilesToSearch else ShallowFilesToSearch
  }

  /** The patterns a depth leads to: "*" alone, or "messages.p*" followed by "TBT*". */
  lemma PatternsForDepth(searchDepth: string)
    ensures Patterns(SearchPatternFor(searchDepth)) ==
              if searchDepth == "deep" then ["*"] else ["messages.p*", "TBT*"]
  {
    ShallowPatterns();
    DeepPatterns();
  }

  /** The files found so far, and the directories that could not be searched ("Unable to search"). */
  datatype Gathered = Gathered(files: seq<string>, unsearchable: seq<string>)

  /** The loop over the ';'-separated directories: each one's files in turn, or its name skipped. */
  function GatherPieces(paths: seq<string>, searchPattern: string, listing: Listing): (g: Gathered)
    ensures |g.unsearchable| <= |paths|
  {
    if paths == [] then Gathered([], [])
    else
      var g := GatherPieces(paths[..|paths| - 1], searchPattern, listing);
      var p := paths[|paths| - 1];
      match Collect(p, Patterns(searchPattern), listing)
      case Ok(files) => Gathered(g.files + files, g.unsearchable)
      case Err(_) => Gathered(g.files, g.unsearchable + [p])
  }

  /**
   * Lines 156-180.  A directory option with ';' never throws; without it the one collection's
   * exception escapes, and otherwise its files are all there is.
   */
  function Discover(dirToSearch: string, searchPattern: string, listing: Listing): (r: Result<Gathered>)
    ensures ';' in dirToSearch ==> r.Ok?
    ensures ';' !in dirToSearch ==>
              r == match Collect(dirToSearch, Patterns(searchPattern), listing)
                   case Err(e) => Err(e)
                   case Ok(files) => Ok(Gathered(files, []))
  {
    if ';' in dirToSearch then Ok(GatherPieces(Split(dirToSearch, ';'), searchPattern, listing))
    else
      match Collect(dirToSearch, Patterns(searchPattern), listing)
      case Err(e) => Err(e)
      case Ok(files) => Ok(Gathered(files, []))
  }

  /** Lines 156-180 of `Main`, with a `FileCollection` made for every directory. */
  method FindMatchingFiles(dirToSearch: string, searchPattern: string, listing: Listing) returns (r: Result<Gathered>)
    ensures r == Discover(dirToSearch, searchPattern, listing)
  {
    var matchingFiles: seq<string> := [];
    if ';' in dirToSearch {
      var paths2Search := Split(dirToSearch, ';');
      var unsearchable: seq<string> := [];
      for i := 0 to |paths2Search|
        invariant GatherPieces(paths2Search[..i], searchPattern, listing) == Gathered(matchingFiles, unsearchable)
      {
        var p := paths2Search[i];
        assert paths2Search[..i + 1][..i] == paths2Search[..i];
        var lfc := new FileCollection(p, searchPattern);
        var found := lfc.BuildFileCollection(listing);
        if found.Ok? {
          matchingFiles := matchingFiles + found.value;
        } else {
          unsearchable := unsearchable + [p];
        }
      }
      assert paths2Search[..|paths2Search|] == paths2Search;
      r := Ok(Gathered(matchingFiles, unsearchable));
    } else {
      var lfc := new FileCollection(dirToSearch, searchPattern);
      var found := lfc.BuildFileCollection(listing);
      if found.Err? {
        return Err(found.error);
      }
      matchingFiles := matchingFiles + found.value;
      assert matchingFiles == found.value;
      r := Ok(Gathered(matchingFiles, []));
    }
  }

  /** Gathering over two lists of directories one after the other adds up both, in order. */
  lemma {:induction false} GatherAppend(ps: seq<string>, qs: seq<string>, searchPattern: string, listing: Listing)
    ensures var g, g1, g2 := GatherPieces(ps + qs, searchPattern, listing),
                             GatherPieces(ps, searchPattern, listing), GatherPieces(qs, searchPattern, listing);
            g == Gathered(g1.files + g2.files, g1.unsearchable + g2.unsearchable)
    decreases |qs|
  {
    var g1 := GatherPieces(ps, searchPattern, listing);
    if qs == [] {
      assert ps + qs == ps;
      assert g1.files + [] == g1.files && g1.unsearchable + [] == g1.unsearchable;
    } else {
      var init, p := qs[..|qs| - 1], qs[|qs| - 1];
      var all := ps + qs;
      assert all[..|all| - 1] == ps + init && all[|all| - 1] == p;
      GatherAppend(ps, init, searchPattern, listing);
      var g2 := GatherPieces(init, searchPattern, listing);
      match Collect(p, Patterns(searchPattern), listing)
      case Ok(files) =>
        assert g1.files + g2.files + files == g1.files + (g2.files + files);
      case Err(_) =>
        assert g1.unsearchable + g2.unsearchable + [p] == g1.unsearchable + (g2.unsearchable + [p]);
    }
  }

  /** A directory that cannot be listed is skipped and named; any other contributes all its files. */
  lemma GatherSingle(p: string, searchPattern: string, listing: Listing)
    ensures GatherPieces([p], searchPattern, listing) ==
              match Collect(p, Patterns(searchPattern), listing)
              case Ok(files) => Gathered(files, [])
              case Err(_) => Gathered([], [p])
  {
    assert [p][..0] == [];
    match Collect(p, Patterns(searchPattern), listing)
    case Ok(files) => assert [] + files == files;
    case Err(_) =>
  }

  /** A directory is listed as unsearchable exactly when it is one of the pieces whose collection throws. */
  lemma {:induction false} UnsearchableIff(paths: seq<string>, searchPattern: string, listing: Listing, d: string)
    ensures d in GatherPieces(paths, searchPattern, listing).unsearchable <==>
              exists i :: 0 <= i < |paths| && paths[i] == d && Collect(d, Patterns(searchPattern), listing).Err?
  {
    if paths != [] {
      var init := paths[..|paths| - 1];
      UnsearchableIff(init, searchPattern, listing, d);
      assert forall i :: 0 <= i < |init| ==> init[i] == paths[i];
      if Collect(d, Patterns(searchPattern), listing).Err? && d !in GatherPieces(init, searchPattern, listing).unsearchable {
        assert d in GatherPieces(paths, searchPattern, listing).unsearchable ==> paths[|paths| - 1] == d;
      }
    }
  }

  /**
   * Two directories, the first of which cannot be listed: the run goes on with the second
   * directory's files and names the first as unsearchable.
   */
  lemma FirstDirectoryFails(d1: string, d2: string, searchPattern: string, listing: Listing)
    requires ';' !in d1 && ';' !in d2
    requires Collect(d1, Patterns(searchPattern), listing).Err?
    requires Collect(d2, Patterns(searchPattern), listing).Ok?
    ensures Discover(d1 + ";" + d2, searchPattern, listing) ==
            Ok(Gathered(Collect(d2, Patterns(searchPattern), listing).value, [d1]))
  {
    var dirs := d1 + ";" + d2;
    assert dirs == d1 + [';'] + d2;
    assert ';' in dirs by { assert dirs[|d1|] == ';'; }
    SplitAtFirst(d1, ';', d2);
    SplitWithoutSeparator(d2, ';');
    assert Split(dirs, ';') == [d1] + [d2];
    GatherAppend([d1], [d2], searchPattern, listing);
    GatherSingle(d1, searchPattern, listing);
    GatherSingle(d2, searchPattern, listing);
  }
}
