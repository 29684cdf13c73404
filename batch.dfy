/** The batch of file entries as values: the record kept per selected file,
    the three whole-batch rewrites the handlers apply (fresh selection,
    renaming for a new extension, marking processed), the selection of
    archive members, and the guards and counts the screen is drawn from.
    The file handle `B` is opaque: it is carried along and never looked at. */
module Batch {
  import opened Naming

  /** One file the user picked: its name and its handle. */
  datatype SelectedFile<B> = SelectedFile(name: string, handle: B)

  /** The state kept for one file of the batch. */
  datatype FileEntry<B> = FileEntry(
    id: nat,
    originalFile: B,
    originalName: string,
    originalExtension: string,
    baseName: string,
    newName: string,
    processed: bool)

  /** A downloadable file: the name it is saved under and its content. */
  datatype Member<B> = Member(name: string, content: B)

  /** The name of the archive holding all processed files. */
  const ArchiveFileName: string := "pyrmd-transformed-files.zip"

  /** The entry created for the file at position `index` of a selection. */
  function NewEntry<B>(index: nat, file: SelectedFile<B>): (e: FileEntry<B>)
    ensures e.id == index && e.originalFile == file.handle && e.originalName == file.name
    ensures e.baseName <= file.name && (file.name != "" ==> e.baseName != "")
    ensures Dot !in e.originalExtension
    ensures |e.originalExtension| <= |file.name|
    ensures e.originalExtension == file.name[|file.name| - |e.originalExtension|..]
    ensures e.newName == "" && !e.processed
  {
    FileEntry(index, file.handle, file.name, OriginalExtension(file.name),
              BaseName(file.name), "", false)
  }

  /** What a single-file download and an archive member are made of: the
      new name and the untouched original file. */
  function AsMember<B>(f: FileEntry<B>): (m: Member<B>)
    ensures m.name == f.newName && m.content == f.originalFile
  {
    Member(f.newName, f.originalFile)
  }

  /** The batch built from a selection: one fresh entry per selected file,
      in selection order, numbered by position. */
  function FromSelection<B>(selected: seq<SelectedFile<B>>): (fs: seq<FileEntry<B>>)
    ensures |fs| == |selected|
    ensures forall i :: 0 <= i < |fs| ==>
      && fs[i].id == i
      && fs[i].originalFile == selected[i].handle
      && fs[i].originalName == selected[i].name
      && fs[i].newName == ""
      && !fs[i].processed
  {
    seq(|selected|, i requires 0 <= i < |selected| => NewEntry(i, selected[i]))
  }

  /** Every entry renamed for the cleaned extension `cleanExt` and marked
      unprocessed; nothing else of an entry changes. */
  function Renamed<B>(fs: seq<FileEntry<B>>, cleanExt: string): (rs: seq<FileEntry<B>>)
    ensures |rs| == |fs|
    ensures forall i :: 0 <= i < |rs| ==>
      rs[i] == fs[i].(newName := NewName(fs[i].baseName, cleanExt), processed := false)
  {
    seq(|fs|, i requires 0 <= i < |fs| =>
      fs[i].(newName := NewName(fs[i].baseName, cleanExt), processed := false))
  }

  /** Every entry marked processed; nothing else of an entry changes. */
  function MarkedProcessed<B>(fs: seq<FileEntry<B>>): (rs: seq<FileEntry<B>>)
    ensures |rs| == |fs|
    ensures forall i :: 0 <= i < |rs| ==> rs[i] == fs[i].(processed := true)
  {
    seq(|fs|, i requires 0 <= i < |fs| => fs[i].(processed := true))
  }

  /** The members added to the archive: one per processed entry, in batch
      order, each named by its new name. It is never longer than the batch,
      and it is empty exactly when no entry is processed. */
  function ArchiveMembers<B>(fs: seq<FileEntry<B>>): (ms: seq<Member<B>>)
    ensures |ms| <= |fs|
    ensures ms == [] <==> !AnyProcessed(fs)
  {
    if fs == [] then []
    else
      assert AnyProcessed(fs[1..]) ==> AnyProcessed(fs) by {
        if AnyProcessed(fs[1..]) {
          var i :| 0 <= i < |fs[1..]| && fs[1..][i].processed;
          assert fs[i + 1].processed;
        }
      }
      assert AnyProcessed(fs) && !fs[0].processed ==> AnyProcessed(fs[1..]) by {
        if AnyProcessed(fs) && !fs[0].processed {
          var i :| 0 <= i < |fs| && fs[i].processed;
          assert fs[1..][i - 1].processed;
        }
      }
      (if fs[0].processed then [AsMember(fs[0])] else []) + ArchiveMembers(fs[1..])
  }

  /** `files.filter(f => f.processed).length`. */
  function ProcessedCount<B>(fs: seq<FileEntry<B>>): (n: nat)
    ensures n <= |fs|
  {
    if fs == [] then 0
    else (if fs[0].processed then 1 else 0) + ProcessedCount(fs[1..])
  }

  /** `files.some(f => f.processed)`: whether the processed count is shown. */
  predicate AnyProcessed<B>(fs: seq<FileEntry<B>>)
    ensures AnyProcessed(fs) ==> fs != []
  {
    exists i :: 0 <= i < |fs| && fs[i].processed
  }

  /** Whether the archive download is shown: it sits among the buttons that
      only appear under a non-empty extension, and needs some processed
      entry. */
  predicate ZipOffered<B>(newExtension: string, fs: seq<FileEntry<B>>)
    ensures ZipOffered(newExtension, fs) ==> newExtension != "" && fs != []
  {
    newExtension != "" && AnyProcessed(fs)
  }

  /** Whether the transform button is shown (the batch is not empty and
      there is an extension) and enabled (no transform is running). */
  predicate TransformOffered<B>(newExtension: string, isProcessing: bool, fs: seq<FileEntry<B>>)
    ensures TransformOffered(newExtension, isProcessing, fs) ==> newExtension != "" && fs != []
  {
    fs != [] && newExtension != "" && !isProcessing
  }

  /** Whether an entry shows its own download button: exactly when the
      entry would be a member of an archive of it alone. */
  predicate DownloadOffered<B>(f: FileEntry<B>)
    ensures DownloadOffered(f) <==> ArchiveMembers([f]) == [AsMember(f)]
  {
    assert [f][1..] == [];
    f.processed
  }

  /** What holds of every entry between two handler calls: its id is its
      position, its base name and original extension are those of its
      original name, its new name is either not set yet or derived from the
      current extension, and it is only processed under a non-empty
      extension. */
  ghost predicate EntryWellFormed<B>(f: FileEntry<B>, index: nat, newExtension: string)
  {
    && f.id == index
    && f.baseName == BaseName(f.originalName)
    && f.originalExtension == OriginalExtension(f.originalName)
    && (f.newName == "" || f.newName == NewName(f.baseName, newExtension))
    && (f.processed ==> newExtension != "")
  }

  ghost predicate WellFormed<B>(fs: seq<FileEntry<B>>, newExtension: string)
  {
    forall i :: 0 <= i < |fs| ==> EntryWellFormed(fs[i], i, newExtension)
  }

  // ----- Invariant preservation -----

  lemma FromSelectionWellFormed<B>(selected: seq<SelectedFile<B>>, newExtension: string)
    ensures WellFormed(FromSelection(selected), newExtension)
    ensures forall i :: 0 <= i < |selected| ==>
      FromSelection(selected)[i].baseName != "" || selected[i].name == ""
  {
  }

  lemma RenamedWellFormed<B>(fs: seq<FileEntry<B>>, oldExtension: string, cleanExt: string)
    requires WellFormed(fs, oldExtension)
    ensures WellFormed(Renamed(fs, cleanExt), cleanExt)
    ensures forall i :: 0 <= i < |fs| && fs[i].originalName != "" ==>
      Renamed(fs, cleanExt)[i].newName != ""
  {
  }

  lemma MarkedProcessedWellFormed<B>(fs: seq<FileEntry<B>>, newExtension: string)
    requires WellFormed(fs, newExtension) && newExtension != ""
    ensures WellFormed(MarkedProcessed(fs), newExtension)
  {
  }

  // ----- Renaming -----

  /** Renaming twice for the same extension leaves what renaming once
      leaves. */
  lemma RenamedIdempotent<B>(fs: seq<FileEntry<B>>, cleanExt: string)
    ensures Renamed(Renamed(fs, cleanExt), cleanExt) == Renamed(fs, cleanExt)
  {
  }

  /** After a rename nothing is processed, so nothing goes into an archive
      and no archive download is offered. */
  lemma {:induction false} RenamedClearsProcessed<B>(fs: seq<FileEntry<B>>, cleanExt: string)
    ensures ProcessedCount(Renamed(fs, cleanExt)) == 0
    ensures ArchiveMembers(Renamed(fs, cleanExt)) == []
    ensures !AnyProcessed(Renamed(fs, cleanExt))
  {
    var rs := Renamed(fs, cleanExt);
    NoneProcessed(rs);
  }

  // ----- Counting -----

  /** The processed count splits over a concatenation. */
  lemma {:induction false} ProcessedCountAppend<B>(a: seq<FileEntry<B>>, b: seq<FileEntry<B>>)
    ensures ProcessedCount(a + b) == ProcessedCount(a) + ProcessedCount(b)
  {
    if a != [] {
      assert (a + b)[1..] == a[1..] + b;
      ProcessedCountAppend(a[1..], b);
    } else {
      assert a + b == b;
    }
  }

  /** The processed count never exceeds the batch size, and it is positive
      exactly when some entry is processed. */
  lemma {:induction false} ProcessedCountBounds<B>(fs: seq<FileEntry<B>>)
    ensures ProcessedCount(fs) <= |fs|
    ensures ProcessedCount(fs) > 0 <==> AnyProcessed(fs)
  {
    if fs != [] {
      ProcessedCountBounds(fs[1..]);
      if AnyProcessed(fs[1..]) {
        var i :| 0 <= i < |fs[1..]| && fs[1..][i].processed;
        assert fs[i + 1].processed;
      }
      if AnyProcessed(fs) && !fs[0].processed {
        var i :| 0 <= i < |fs| && fs[i].processed;
        assert fs[1..][i - 1].processed;
      }
    }
  }

  /** Between handler calls the archive download is shown exactly when the
      processed count is positive, since nothing is processed under an empty
      extension. */
  lemma ZipOfferedIffCounted<B>(fs: seq<FileEntry<B>>, newExtension: string)
    requires WellFormed(fs, newExtension)
    ensures ZipOffered(newExtension, fs) <==> ProcessedCount(fs) > 0
    ensures ZipOffered(newExtension, fs) ==> |ArchiveMembers(fs)| > 0
  {
    ProcessedCountBounds(fs);
    ArchiveMembersCount(fs);
    if AnyProcessed(fs) {
      var i :| 0 <= i < |fs| && fs[i].processed;
      assert EntryWellFormed(fs[i], i, newExtension);
    }
  }

  /** Counting entries before an index only grows, and it grows past every
      processed entry. */
  lemma ProcessedCountPrefix<B>(fs: seq<FileEntry<B>>, i: nat, j: nat)
    requires i < j <= |fs|
    ensures ProcessedCount(fs[..i]) + (if fs[i].processed then 1 else 0) <= ProcessedCount(fs[..j])
  {
    assert fs[..j] == fs[..i] + [fs[i]] + fs[i + 1..j];
    ProcessedCountAppend(fs[..i] + [fs[i]], fs[i + 1..j]);
    ProcessedCountAppend(fs[..i], [fs[i]]);
  }

  // ----- Archive members -----

  /** Members of two batches put together are the members of the first
      followed by those of the second: selection keeps batch order. */
  lemma {:induction false} ArchiveMembersAppend<B>(a: seq<FileEntry<B>>, b: seq<FileEntry<B>>)
    ensures ArchiveMembers(a + b) == ArchiveMembers(a) + ArchiveMembers(b)
  {
    if a != [] {
      assert (a + b)[1..] == a[1..] + b;
      ArchiveMembersAppend(a[1..], b);
    } else {
      assert a + b == b;
    }
  }

  /** One member is added per processed entry. */
  lemma {:induction false} ArchiveMembersCount<B>(fs: seq<FileEntry<B>>)
    ensures |ArchiveMembers(fs)| == ProcessedCount(fs)
  {
    if fs != [] {
      ArchiveMembersCount(fs[1..]);
    }
  }

  /** Every member comes from a processed entry, under its new name and with
      its original file. */
  lemma {:induction false} ArchiveMembersSound<B>(fs: seq<FileEntry<B>>)
    ensures forall k :: 0 <= k < |ArchiveMembers(fs)| ==>
      exists i :: 0 <= i < |fs| && fs[i].processed && ArchiveMembers(fs)[k] == AsMember(fs[i])
  {
    if fs != [] {
      ArchiveMembersSound(fs[1..]);
      var head := if fs[0].processed then [AsMember(fs[0])] else [];
      var ms := ArchiveMembers(fs);
      assert ms == head + ArchiveMembers(fs[1..]);
      forall k | 0 <= k < |ms|
        ensures exists i :: 0 <= i < |fs| && fs[i].processed && ms[k] == AsMember(fs[i])
      {
        if k < |head| {
          assert fs[0].processed && ms[k] == AsMember(fs[0]);
        } else {
          var i :| 0 <= i < |fs[1..]| && fs[1..][i].processed
                   && ArchiveMembers(fs[1..])[k - |head|] == AsMember(fs[1..][i]);
          assert fs[i + 1] == fs[1..][i];
          assert ms[k] == ArchiveMembers(fs[1..])[k - |head|];
        }
      }
    } else {
      assert ArchiveMembers(fs) == [];
    }
  }

  /** Every processed entry is a member, at the position given by the
      number of processed entries before it, under its new name and with
      its original file. */
  lemma ArchiveMemberAt<B>(fs: seq<FileEntry<B>>, i: nat)
    requires i < |fs| && fs[i].processed
    ensures ProcessedCount(fs[..i]) < |ArchiveMembers(fs)|
    ensures ArchiveMembers(fs)[ProcessedCount(fs[..i])] == AsMember(fs[i])
  {
    assert fs == fs[..i] + ([fs[i]] + fs[i + 1..]);
    ArchiveMembersAppend(fs[..i], [fs[i]] + fs[i + 1..]);
    assert ([fs[i]] + fs[i + 1..])[1..] == fs[i + 1..];
    ArchiveMembersCount(fs[..i]);
  }

  /** With nothing processed the archive is empty; with everything
      processed it holds every entry in order. */
  lemma {:induction false} NoneProcessed<B>(fs: seq<FileEntry<B>>)
    requires forall i :: 0 <= i < |fs| ==> !fs[i].processed
    ensures ArchiveMembers(fs) == [] && ProcessedCount(fs) == 0 && !AnyProcessed(fs)
  {
    if fs != [] {
      NoneProcessed(fs[1..]);
    }
  }

  lemma {:induction false} AllProcessed<B>(fs: seq<FileEntry<B>>)
    requires forall i :: 0 <= i < |fs| ==> fs[i].processed
    ensures ArchiveMembers(fs) == seq(|fs|, i requires 0 <= i < |fs| => AsMember(fs[i]))
    ensures ProcessedCount(fs) == |fs|
  {
    if fs != [] {
      AllProcessed(fs[1..]);
    }
  }

  /** Marking processed puts every entry into the archive, in order, and
      offers the archive download exactly when the batch is not empty. */
  lemma MarkedProcessedArchive<B>(fs: seq<FileEntry<B>>)
    ensures ArchiveMembers(MarkedProcessed(fs)) ==
            seq(|fs|, i requires 0 <= i < |fs| => Member(fs[i].newName, fs[i].originalFile))
    ensures ProcessedCount(MarkedProcessed(fs)) == |fs|
    ensures AnyProcessed(MarkedProcessed(fs)) <==> fs != []
  {
    AllProcessed(MarkedProcessed(fs));
    if fs != [] {
      assert MarkedProcessed(fs)[0].processed;
    }
  }

  /** Transforming while the transform button is offered leaves the archive
      download offered and every entry with its own download button. */
  lemma TransformThenZip<B>(fs: seq<FileEntry<B>>, newExtension: string, isProcessing: bool)
    requires TransformOffered(newExtension, isProcessing, fs)
    ensures ZipOffered(newExtension, MarkedProcessed(fs))
    ensures forall i :: 0 <= i < |fs| ==> DownloadOffered(MarkedProcessed(fs)[i])
  {
    MarkedProcessedArchive(fs);
  }

  /** An entry that shows a download button saves the same name and content
      as its member of the archive. */
  lemma SingleDownloadMatchesArchive<B>(fs: seq<FileEntry<B>>, i: nat)
    requires i < |fs| && DownloadOffered(fs[i])
    ensures AsMember(fs[i]) in ArchiveMembers(fs)
    ensures AsMember(fs[i]).name == fs[i].newName && AsMember(fs[i]).content == fs[i].originalFile
  {
    ArchiveMemberAt(fs, i);
  }
}
