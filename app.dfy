/** The rename component's state and its handlers. The component holds the
    batch of entries, the cleaned extension last typed and a busy flag;
    each handler replaces them as its code does, and `Valid` is what every
    handler keeps. */
module App {
  import opened Naming
  import opened Batch

  class FileExtensionChanger<B> {
    var files: seq<FileEntry<B>>
    var newExtension: string
    var isProcessing: bool

    /** Every handler runs to completion before the next one starts, so
        between two calls no transform is running. */
    ghost predicate Valid()
      reads this
    {
      WellFormed(files, newExtension) && !isProcessing
    }

    /** The initial state: no files, no extension, not busy. */
    constructor ()
      ensures Valid()
      ensures files == [] && newExtension == "" && !isProcessing
    {
      files := [];
      newExtension := "";
      isProcessing := false;
    }

    /** A new selection replaces the whole batch with fresh entries; the
        extension and the busy flag stay as they are. */
    method HandleFileSelect(selected: seq<SelectedFile<B>>)
      requires Valid()
      modifies this
      ensures Valid()
      ensures files == FromSelection(selected)
      ensures newExtension == old(newExtension) && isProcessing == old(isProcessing)
    {
      FromSelectionWellFormed(selected, newExtension);
      files := FromSelection(selected);
    }

    /** Typing an extension stores it cleaned of one leading dot, renames
        every entry for it and marks every entry unprocessed. */
    method UpdateNewExtension(ext: string)
      requires Valid()
      modifies this
      ensures Valid()
      ensures newExtension == CleanExtension(ext)
      ensures files == Renamed(old(files), CleanExtension(ext))
      ensures isProcessing == old(isProcessing)
    {
      var cleanExt := CleanExtension(ext);
      RenamedWellFormed(files, newExtension, cleanExt);
      newExtension := cleanExt;
      files := Renamed(files, cleanExt);
    }

    /** Without an extension nothing happens; otherwise the busy flag is
        raised, every entry is marked processed, and the flag is lowered. */
    method ProcessFiles()
      requires Valid()
      modifies this
      ensures Valid()
      ensures newExtension == old(newExtension)
      ensures old(newExtension) == "" ==> files == old(files) && isProcessing == old(isProcessing)
      ensures old(newExtension) != "" ==> files == MarkedProcessed(old(files)) && !isProcessing
    {
      if newExtension == "" {
        return;
      }
      isProcessing := true;
      MarkedProcessedWellFormed(files, newExtension);
      files := MarkedProcessed(files);
      isProcessing := false;
    }

    /** Reset discards the batch, the extension and the busy flag. */
    method ResetApp()
      modifies this
      ensures Valid()
      ensures files == [] && newExtension == "" && !isProcessing
    {
      files := [];
      newExtension := "";
      isProcessing := false;
    }

    /** The members put into the archive, one per processed entry in batch
        order, and the archive's file name. */
    method DownloadAllFiles() returns (zip: seq<Member<B>>, archiveName: string)
      ensures zip == ArchiveMembers(files)
      ensures archiveName == ArchiveFileName
    {
      zip := [];
      var i := 0;
      while i < |files|
        invariant 0 <= i <= |files|
        invariant zip == ArchiveMembers(files[..i])
      {
        var f := files[i];
        assert files[..i + 1] == files[..i] + [f];
        ArchiveMembersAppend(files[..i], [f]);
        if f.processed {
          zip := zip + [AsMember(f)];
        }
        i := i + 1;
      }
      assert files[..i] == files;
      archiveName := ArchiveFileName;
    }
  }

  /** The names the scenarios below work with: the base names of the two
      selected files, the cleaned extensions and the new names. */
  lemma ScenarioNames()
    ensures BaseName("a.txt") == "a" && BaseName("report") == "report"
    ensures CleanExtension("pdf") == "pdf" && CleanExtension(".csv") == "csv"
    ensures NewName("a", "pdf") == "a.pdf" && NewName("report", "pdf") == "report.pdf"
    ensures NewName("a", "csv") == "a.csv" && NewName("report", "csv") == "report.csv"
  {
    assert "a.txt" == "a" + [Dot] + "txt";
    LastDotBeforeTail("a", "txt");
    BaseNameOfHiddenOrPlainName("report");
  }

  /** Selecting "a.txt" and "report" and renaming for any extension gives
      two entries that download as "a" and "report" followed by that
      extension, with the files they were selected with. */
  lemma ScenarioRenaming<B>(x: B, y: B, cleanExt: string, a: string, r: string)
    requires a == NewName("a", cleanExt) && r == NewName("report", cleanExt)
    ensures var rs := Renamed(FromSelection([SelectedFile("a.txt", x), SelectedFile("report", y)]), cleanExt);
      |rs| == 2 && AsMember(rs[0]) == Member(a, x) && AsMember(rs[1]) == Member(r, y)
  {
    ScenarioNames();
    var fs := FromSelection([SelectedFile("a.txt", x), SelectedFile("report", y)]);
    assert fs[0].baseName == "a" && fs[1].baseName == "report";
  }

  /** The archive of a batch of two processed entries holds both, in order. */
  lemma ArchiveOfTwo<B>(fs: seq<FileEntry<B>>)
    requires |fs| == 2 && fs[0].processed && fs[1].processed
    ensures |ArchiveMembers(fs)| == 2
    ensures ArchiveMembers(fs)[0] == AsMember(fs[0]) && ArchiveMembers(fs)[1] == AsMember(fs[1])
  {
    AllProcessed(fs);
  }

  /** A sequence of length two is the display of its two elements. */
  lemma PairOf<T>(s: seq<T>, a: T, b: T)
    requires |s| == 2 && s[0] == a && s[1] == b
    ensures s == [a, b]
  {
  }

  /** Select "a.txt" and "report", type "pdf", transform, download all: the
      archive holds "a.pdf" and "report.pdf" with the original files. */
  method ScenarioSelectRenameArchive<B>(x: B, y: B) returns (zip: seq<Member<B>>, archiveName: string)
    ensures zip == [Member("a.pdf", x), Member("report.pdf", y)]
    ensures archiveName == "pyrmd-transformed-files.zip"
  {
    ScenarioNames();
    var app := new FileExtensionChanger<B>();
    app.HandleFileSelect([SelectedFile("a.txt", x), SelectedFile("report", y)]);
    app.UpdateNewExtension("pdf");
    ScenarioRenaming(x, y, "pdf", "a.pdf", "report.pdf");
    var renamed := app.files;
    app.ProcessFiles();
    var processed := app.files;
    ArchiveOfTwo(processed);
    assert AsMember(processed[0]) == AsMember(renamed[0]) == Member("a.pdf", x);
    assert AsMember(processed[1]) == AsMember(renamed[1]) == Member("report.pdf", y);
    zip, archiveName := app.DownloadAllFiles();
    assert zip == ArchiveMembers(processed);
    PairOf(zip, Member("a.pdf", x), Member("report.pdf", y));
  }

  /** After the batch above was transformed, typing ".csv" renames both
      files to "a.csv" and "report.csv" and takes back their processed
      marks, so no download is offered until the next transform. */
  method ScenarioChangeExtension<B>(x: B, y: B) returns (names: seq<string>, zipOffered: bool, entryOffered: bool)
    ensures names == ["a.csv", "report.csv"]
    ensures !zipOffered && !entryOffered
  {
    ScenarioNames();
    var app := new FileExtensionChanger<B>();
    app.HandleFileSelect([SelectedFile("a.txt", x), SelectedFile("report", y)]);
    app.UpdateNewExtension("pdf");
    app.ProcessFiles();
    var processed := app.files;
    app.UpdateNewExtension(".csv");
    RenamedClearsProcessed(processed, "csv");
    names := [app.files[0].newName, app.files[1].newName];
    zipOffered := ZipOffered(app.newExtension, app.files);
    entryOffered := DownloadOffered(app.files[0]) || DownloadOffered(app.files[1]);
  }

  /** An empty selection with an extension typed offers no transform, and
      transforming it anyway gives an archive with no members. */
  method ScenarioEmptyBatch<B>() returns (transformOffered: bool, zip: seq<Member<B>>)
    ensures !transformOffered
    ensures zip == []
  {
    var app := new FileExtensionChanger<B>();
    app.HandleFileSelect([]);
    app.UpdateNewExtension("jpg");
    transformOffered := TransformOffered(app.newExtension, app.isProcessing, app.files);
    app.ProcessFiles();
    var archiveName;
    zip, archiveName := app.DownloadAllFiles();
  }
}
