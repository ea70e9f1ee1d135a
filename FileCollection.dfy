/**
 * The file collection (`FileCollectionMod.FileCollection`): it holds a directory and a search
 * pattern separated by ';', and collects the files of the directory that match each pattern.
 * The directory listing, `Directory.EnumerateFiles(directory, pattern)`, is a parameter: it
 * gives the matching files in the order the file system reports them, or `None` when the call
 * throws, in which case the exception leaves `BuildFileCollection` uncaught.
 */
module FileCollectionMod {
  import opened Wrappers
  import opened Text

  /** `Directory.EnumerateFiles(directory, pattern)`. */
  type Listing = (string, string) -> Option<seq<string>>

  /** The pattern list: the search pattern cut at every ';', empty pieces included. */
  function Patterns(searchPattern: string): (r: seq<string>)
    ensures |r| >= 1 && Join(r, ';') == searchPattern
  {
    JoinSplit(searchPattern, ';');
    Split(searchPattern, ';')
  }

  /**
   * The files the nested loops gather for `patterns`, pattern after pattern, every listing in
   * its own order; the first listing that throws ends the collection.
   */
  function Collect(directory: string, patterns: seq<string>, listing: Listing): (r: Result<seq<string>>)
    ensures r.Err? ==> r.error == Unreadable(directory)
    ensures r.Ok? ==> forall i :: 0 <= i < |patterns| ==>
              listing(directory, patterns[i]).Some? && multiset(listing(directory, patterns[i]).value) <= multiset(r.value)
  {
    if patterns == [] then Ok([])
    else
      match Collect(directory, patterns[..|patterns| - 1], listing)
      case Err(e) => Err(e)
      case Ok(files) =>
        match listing(directory, patterns[|patterns| - 1])
        case None => Err(Unreadable(directory))
        case Some(more) => Ok(files + more)
  }

  class FileCollection {
    var directoryToSearch: string
    var searchPattern: string

    constructor (aDirectory: string, aSearchPattern: string)
      ensures directoryToSearch == aDirectory && searchPattern == aSearchPattern
    {
      directoryToSearch := aDirectory;
      searchPattern := aSearchPattern;
    }

    /** The setter of `DirectoryToSearch`. */
    method SetDirectoryToSearch(value: string)
      modifies this
      ensures directoryToSearch == value && searchPattern == old(searchPattern)
    {
      directoryToSearch := value;
    }

    /** The setter of `SearchPattern`. */
    method SetSearchPattern(value: string)
      modifies this
      ensures searchPattern == value && directoryToSearch == old(directoryToSearch)
    {
      searchPattern := value;
    }

    /** `BuildFileCollection`: the listings of every pattern, concatenated in pattern order. */
    method BuildFileCollection(listing: Listing) returns (r: Result<seq<string>>)
      ensures r == Collect(directoryToSearch, Patterns(searchPattern), listing)
    {
      var patternsToSearch := Split(searchPattern, ';');
      var matchingFiles: seq<string> := [];
      for i := 0 to |patternsToSearch|
        invariant Collect(directoryToSearch, patternsToSearch[..i], listing) == Ok(matchingFiles)
      {
        var patt := patternsToSearch[i];
        assert patternsToSearch[..i + 1][..i] == patternsToSearch[..i];
        var listed := listing(directoryToSearch, patt);
        if listed.None? {
          CollectStopsAtError(directoryToSearch, patternsToSearch, i + 1, listing);
          return Err(Unreadable(directoryToSearch));
        }
        var files := listed.value;
        ghost var before := matchingFiles;
        for j := 0 to |files|
          invariant matchingFiles == before + files[..j]
        {
          matchingFiles := matchingFiles + [files[j]];
          assert files[..j + 1] == files[..j] + [files[j]];
        }
        assert files[..|files|] == files;
      }
      assert patternsToSearch[..|patternsToSearch|] == patternsToSearch;
      r := Ok(matchingFiles);
    }
  }

  /** Once a listing has thrown, the whole collection has thrown, with that exception. */
  lemma {:induction false} CollectStopsAtError(directory: string, patterns: seq<string>, i: nat, listing: Listing)
    requires i <= |patterns| && Collect(directory, patterns[..i], listing).Err?
    ensures Collect(directory, patterns, listing) == Collect(directory, patterns[..i], listing)
    decreases |patterns| - i
  {
    if i < |patterns| {
      assert patterns[..i + 1][..i] == patterns[..i];
      CollectStopsAtError(directory, patterns, i + 1, listing);
    } else {
      assert patterns[..i] == patterns;
    }
  }

  /** The collection succeeds exactly when every pattern's listing does. */
  lemma {:induction false} CollectSucceedsIff(directory: string, patterns: seq<string>, listing: Listing)
    ensures Collect(directory, patterns, listing).Ok? <==>
              forall i :: 0 <= i < |patterns| ==> listing(directory, patterns[i]).Some?
  {
    if patterns != [] {
      var init := patterns[..|patterns| - 1];
      CollectSucceedsIff(directory, init, listing);
      assert forall i :: 0 <= i < |init| ==> init[i] == patterns[i];
    }
  }

  /**
   * Collecting over two pattern lists one after the other gives the first collection followed
   * by the second: every pattern's files keep their place, in pattern order.
   */
  lemma {:induction false} CollectAppend(directory: string, ps: seq<string>, qs: seq<string>, listing: Listing)
    ensures Collect(directory, ps + qs, listing) ==
              match Collect(directory, ps, listing)
              case Err(e) => Err(e)
              case Ok(first) =>
                match Collect(directory, qs, listing)
                case Err(e) => Err(e)
                case Ok(second) => Ok(first + second)
    decreases |qs|
  {
    if qs == [] {
      assert ps + qs == ps;
      match Collect(directory, ps, listing)
      case Err(e) =>
      case Ok(first) => assert first + [] == first;
    } else {
      var init := qs[..|qs| - 1];
      assert (ps + qs)[..|ps + qs| - 1] == ps + init;
      assert (ps + qs)[|ps + qs| - 1] == qs[|qs| - 1];
      CollectAppend(directory, ps, init, listing);
      match Collect(directory, ps, listing)
      case Err(e) =>
      case Ok(first) =>
        match Collect(directory, init, listing)
        case Err(e) =>
        case Ok(middle) =>
          match listing(directory, qs[|qs| - 1])
          case None =>
          case Some(more) =>
            assert first + middle + more == first + (middle + more);
    }
  }

  /** A single pattern gives exactly its listing. */
  lemma CollectSingle(directory: string, pattern: string, listing: Listing)
    ensures Collect(directory, [pattern], listing) ==
              match listing(directory, pattern)
              case None => Err(Unreadable(directory))
              case Some(files) => Ok(files)
  {
    assert [pattern][..0] == [];
    match listing(directory, pattern)
    case None =>
    case Some(files) => assert [] + files == files;
  }

  /**
   * No deduplication: every file is gathered once for each pattern whose listing holds it, so
   * a file matched by two patterns appears twice.
   */
  lemma {:induction false} CollectCounts(directory: string, ps: seq<string>, q: string, listing: Listing)
    requires Collect(directory, ps + [q], listing).Ok?
    ensures Collect(directory, ps, listing).Ok? && listing(directory, q).Some?
    ensures multiset(Collect(directory, ps + [q], listing).value) ==
              multiset(Collect(directory, ps, listing).value) + multiset(listing(directory, q).value)
  {
    var all := ps + [q];
    assert all[..|all| - 1] == ps;
    assert all[|all| - 1] == q;
  }

  lemma NoDeduplication(directory: string, p: string, q: string, f: string, listing: Listing)
    requires listing(directory, p).Some? && f in listing(directory, p).value
    requires listing(directory, q).Some? && f in listing(directory, q).value
    ensures Collect(directory, [p, q], listing).Ok?
    ensures multiset(Collect(directory, [p, q], listing).value)[f] >= 2
  {
    CollectSingle(directory, p, listing);
    assert [p] + [q] == [p, q];
    CollectCounts(directory, [p], q, listing);
  }

  /** The shallow pattern set names two patterns, and "*" one. */
  lemma ShallowPatterns()
    ensures Patterns("messages.p*;TBT*") == ["messages.p*", "TBT*"]
  {
    var first, second := "messages.p*", "TBT*";
    assert ';' !in first;
    assert ';' !in second;
    assert "messages.p*;TBT*" == first + [';'] + second;
    SplitAtFirst(first, ';', second);
    SplitWithoutSeparator(second, ';');
  }

  lemma DeepPatterns()
    ensures Patterns("*") == ["*"]
  {
    SplitWithoutSeparator("*", ';');
  }

  /** Empty pieces are kept: a doubled, leading or trailing ';' yields an empty pattern. */
  lemma EmptyPatternsKept(a: string, b: string)
    requires ';' !in a && ';' !in b
    ensures Patterns(a + ";;" + b) == [a, "", b]
    ensures Patterns(";" + a) == ["", a]
    ensures Patterns(a + ";") == [a, ""]
  {
    assert a + ";;" + b == a + [';'] + ([';'] + b);
    SplitAtFirst(a, ';', [';'] + b);
    assert [';'] + b == [] + [';'] + b;
    SplitAtFirst([], ';', b);
    SplitWithoutSeparator(b, ';');
    assert ";" + a == [] + [';'] + a;
    SplitAtFirst([], ';', a);
    SplitWithoutSeparator(a, ';');
    assert a + ";" == a + [';'] + [];
    SplitAtFirst(a, ';', []);
  }
}
