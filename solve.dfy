/** `get_problem_files`: the problem files of a directory, in directory
    iteration order, optionally capped. The directory listing is an input. */
module ProblemFiles {
  import opened Wrappers
  import opened Ints
  import opened Text

  /** What `get_problem_files` asks of a `directory_entry`. */
  datatype DirEntry = DirEntry(isRegularFile: bool, filename: string, extension: string)

  const FILE_PREFIX := "problem"

  /** A problem file: a regular file with the given extension whose name
      starts with `problem`. */
  predicate IsProblemFile(e: DirEntry, extension: string)
  {
    e.isRegularFile && e.extension == extension && StartsWith(e.filename, FILE_PREFIX)
  }

  /** The problem files among `es`, in their order. */
  function Filter(es: seq<DirEntry>, extension: string): (fs: seq<DirEntry>)
    ensures |fs| <= |es|
    ensures forall i :: 0 <= i < |fs| ==> fs[i] in es && IsProblemFile(fs[i], extension)
  {
    if es == [] then []
    else Filter(es[..|es| - 1], extension) +
         (if IsProblemFile(es[|es| - 1], extension) then [es[|es| - 1]] else [])
  }

  /** Filtering splits over concatenation. */
  lemma {:induction false} FilterAppend(es: seq<DirEntry>, more: seq<DirEntry>, extension: string)
    ensures Filter(es + more, extension) == Filter(es, extension) + Filter(more, extension)
    decreases |more|
  {
    if more == [] {
      assert es + more == es;
    } else {
      assert (es + more)[..|es + more| - 1] == es + more[..|more| - 1];
      FilterAppend(es, more[..|more| - 1], extension);
    }
  }

  /** The entries up to and including the first regular file (all of them
      when there is none). */
  function UpToFirstRegular(es: seq<DirEntry>): (prefix: seq<DirEntry>)
    ensures |prefix| <= |es| && prefix == es[..|prefix|]
    ensures forall i :: 0 <= i < |prefix| - 1 ==> !prefix[i].isRegularFile
  {
    if es == [] then []
    else if es[0].isRegularFile then [es[0]]
    else [es[0]] + UpToFirstRegular(es[1..])
  }

  lemma {:induction false} UpToFirstRegularAt(es: seq<DirEntry>, i: nat)
    requires i < |es| && es[i].isRegularFile
    requires forall j :: 0 <= j < i ==> !es[j].isRegularFile
    ensures UpToFirstRegular(es) == es[..i + 1]
  {
    if i > 0 {
      UpToFirstRegularAt(es[1..], i - 1);
      assert [es[0]] + es[1..][..i] == es[..i + 1];
    }
  }

  lemma {:induction false} UpToFirstRegularNone(es: seq<DirEntry>)
    requires forall j :: 0 <= j < |es| ==> !es[j].isRegularFile
    ensures UpToFirstRegular(es) == es
  {
    if es != [] {
      UpToFirstRegularNone(es[1..]);
      assert [es[0]] + es[1..] == es;
    }
  }

  /** With a cap of 0 at most one file is returned: the first regular
      entry, when it is a problem file. */
  lemma ZeroCapAtMostOne(es: seq<DirEntry>, extension: string)
    ensures |Filter(UpToFirstRegular(es), extension)| <= 1
  {
    var prefix := UpToFirstRegular(es);
    if prefix != [] {
      var init := prefix[..|prefix| - 1];
      assert prefix == init + [prefix[|prefix| - 1]];
      FilterAppend(init, [prefix[|prefix| - 1]], extension);
      NoRegularNoFiles(init, extension);
    }
  }

  lemma {:induction false} NoRegularNoFiles(es: seq<DirEntry>, extension: string)
    requires forall j :: 0 <= j < |es| ==> !es[j].isRegularFile
    ensures Filter(es, extension) == []
  {
    if es != [] {
      NoRegularNoFiles(es[..|es| - 1], extension);
    }
  }

  /** `get_problem_files`: nothing unless `dir` exists and is a directory;
      otherwise the problem files in iteration order, where the cap check
      follows each regular file. */
  method GetProblemFiles(dirIsDirectory: bool, entries: seq<DirEntry>, extension: string, maxFiles: Option<u32>)
    returns (result: seq<DirEntry>)
    ensures !dirIsDirectory ==> result == []
    ensures dirIsDirectory && maxFiles.None? ==> result == Filter(entries, extension)
    ensures dirIsDirectory && maxFiles.Some? && maxFiles.value >= 1 ==>
      var all := Filter(entries, extension);
      result == all[..if |all| < maxFiles.value then |all| else maxFiles.value]
    ensures dirIsDirectory && maxFiles == Some(0) ==> result == Filter(UpToFirstRegular(entries), extension)
  {
    result := [];
    if !dirIsDirectory {
      return;
    }
    var i := 0;
    while i < |entries|
      invariant 0 <= i <= |entries|
      invariant result == Filter(entries[..i], extension)
      invariant maxFiles.Some? && maxFiles.value >= 1 ==> |result| < maxFiles.value
      invariant maxFiles == Some(0) ==> forall j :: 0 <= j < i ==> !entries[j].isRegularFile
    {
      var entry := entries[i];
      FilterStep(entries, i, extension);
      if !entry.isRegularFile {
        i := i + 1;
        continue;
      }
      if entry.extension == extension && StartsWith(entry.filename, FILE_PREFIX) {
        result := result + [entry];
      }
      if maxFiles.Some? && |result| >= maxFiles.value {
        if maxFiles.value == 0 {
          CappedAtZero(entries, i, extension);
        } else {
          Capped(entries, i, extension, maxFiles.value);
        }
        return;
      }
      i := i + 1;
    }
    assert entries[..i] == entries;
    if maxFiles == Some(0) {
      UpToFirstRegularNone(entries);
    }
  }

  /** One more entry adds itself to the filtered list exactly when it is a
      problem file. */
  lemma FilterStep(entries: seq<DirEntry>, i: nat, extension: string)
    requires i < |entries|
    ensures Filter(entries[..i + 1], extension) ==
      Filter(entries[..i], extension) + (if IsProblemFile(entries[i], extension) then [entries[i]] else [])
  {
    assert entries[..i + 1][..i] == entries[..i];
  }

  /** The early return after the regular entry at `i`, with a cap of at
      least one, yields the first `cap` problem files. */
  lemma Capped(entries: seq<DirEntry>, i: nat, extension: string, cap: nat)
    requires i < |entries| && cap >= 1
    requires |Filter(entries[..i], extension)| < cap
    requires |Filter(entries[..i + 1], extension)| >= cap
    ensures var all := Filter(entries, extension);
      Filter(entries[..i + 1], extension) == all[..if |all| < cap then |all| else cap]
  {
    assert entries == entries[..i + 1] + entries[i + 1..];
    FilterAppend(entries[..i + 1], entries[i + 1..], extension);
    FilterStep(entries, i, extension);
  }

  /** The early return after the first regular entry, with a cap of 0,
      yields the problem files up to and including that entry. */
  lemma CappedAtZero(entries: seq<DirEntry>, i: nat, extension: string)
    requires i < |entries| && entries[i].isRegularFile
    requires forall j :: 0 <= j < i ==> !entries[j].isRegularFile
    ensures Filter(entries[..i + 1], extension) == Filter(UpToFirstRegular(entries), extension)
  {
    UpToFirstRegularAt(entries, i);
  }
}
