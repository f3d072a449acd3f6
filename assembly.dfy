/** The steps after the download: `save_init_mp4_from_base64`,
    `generate_file_list` and `combine_files_python` (lines 266-388). */
module Assembly {
  import opened Wrappers
  import opened Bytes
  import opened PyText
  import opened InitPayload
  import opened Storage
  import opened SegmentNames
  import opened StableSort
  import opened Download

  // ---------------------------------------------------------------------------
  // init.mp4 (lines 266-287)

  /** Decodes the initialization data first; an existing `init.mp4` is then
      left alone, otherwise it is written with the decoded bytes. */
  method SaveInitMp4(encoded: string, inflate: Inflate, disk: Disk) returns (ok: bool)
    modifies disk
    ensures ok <==> DecryptString(encoded, inflate).Ok?
    ensures disk.files ==
      if DecryptString(encoded, inflate).Ok? && InitMp4 !in old(disk.files)
      then old(disk.files)[InitMp4 := DecryptString(encoded, inflate).value]
      else old(disk.files)
    ensures disk.listFile == old(disk.listFile)
  {
    var r := DecryptString(encoded, inflate);
    if r.Err? {
      return false;
    }
    if InitMp4 in disk.files {
      return true;
    }
    disk.files := disk.files[InitMp4 := r.value];
    return true;
  }

  // ---------------------------------------------------------------------------
  // input.txt (lines 289-341)

  /** A path the glob for `*.m4s` in the download directory reports: a file directly in the
      download directory whose name ends in `.m4s` and does not start with a dot. */
  predicate IsSegmentCandidate(p: string)
  {
    StartsWith(p, DownloadsDir) && MatchesStarM4s(p[|DownloadsDir|..])
  }

  /** A name `*.m4s` matches: no slash, the suffix, and not hidden. */
  predicate MatchesStarM4s(name: string)
  {
    && (forall i :: 0 <= i < |name| ==> name[i] != '/')
    && EndsWith(name, M4s)
    && !StartsWith(name, ".")
  }

  /** `listing` is what the glob returns for `files`, in some order. */
  ghost predicate IsGlobListing(listing: seq<string>, files: map<string, bytes>)
  {
    && (forall k, l :: 0 <= k < l < |listing| ==> listing[k] != listing[l])
    && (forall p :: p in listing <==> p in files && IsSegmentCandidate(p))
  }

  /** The entries of `input.txt`: `init.mp4`, then the segment files by numeric key. */
  function FileListNames(listing: seq<string>): seq<string>
  {
    [InitMp4] + SortByKey(listing, NumericKey)
  }

  /** What the `for file in ...: f.write(f"{file}\n")` loop writes. */
  function RenderList(names: seq<string>): string
  {
    if names == [] then [] else names[0] + "\n" + RenderList(names[1..])
  }

  lemma {:induction false} RenderSnoc(names: seq<string>, x: string)
    ensures RenderList(names + [x]) == RenderList(names) + x + "\n"
  {
    if names == [] {
      assert names + [x] == [x];
      assert RenderList([x][1..]) == [];
    } else {
      assert (names + [x])[1..] == names[1..] + [x];
      RenderSnoc(names[1..], x);
    }
  }

  /** The loop that puts `init.mp4` in front of the sorted segment files. */
  method RelativeNames(sorted: seq<string>) returns (names: seq<string>)
    ensures names == [InitMp4] + sorted
  {
    names := [InitMp4];
    var i := 0;
    while i < |sorted|
      invariant 0 <= i <= |sorted|
      invariant names == [InitMp4] + sorted[..i]
    {
      assert sorted[..i + 1] == sorted[..i] + [sorted[i]];
      names := names + [sorted[i]];
      i := i + 1;
    }
    assert sorted[..|sorted|] == sorted;
  }

  /** The loop that writes one line per name. */
  method WriteLines(names: seq<string>) returns (text: string)
    ensures text == RenderList(names)
  {
    text := "";
    var i := 0;
    while i < |names|
      invariant 0 <= i <= |names|
      invariant text == RenderList(names[..i])
    {
      assert names[..i + 1] == names[..i] + [names[i]];
      RenderSnoc(names[..i], names[i]);
      text := text + names[i] + "\n";
      i := i + 1;
    }
    assert names[..|names|] == names;
  }

  /** `generate_file_list` on the directory `listing` describes: without
      segment files it fails; an existing `input.txt` is kept; otherwise the
      list is written. */
  method GenerateFileList(listing: seq<string>, disk: Disk) returns (ok: bool)
    requires IsGlobListing(listing, disk.files)
    modifies disk
    ensures ok <==> listing != []
    ensures disk.files == old(disk.files)
    ensures disk.listFile ==
      if listing != [] && old(disk.listFile).None? then Some(RenderList(FileListNames(listing))) else old(disk.listFile)
  {
    if listing == [] {
      return false;
    }
    var sorted := SortByKey(listing, NumericKey);
    var names := RelativeNames(sorted);
    if disk.listFile.Some? {
      return true;
    }
    var text := WriteLines(names);
    disk.listFile := Some(text);
    return true;
  }

  /** Text-mode reading turns `\r\n` and a lone `\r` into `\n`. */
  function Universal(t: string): (r: string)
    ensures '\r' !in r
  {
    if t == [] then []
    else if t[0] == '\r' then
      if |t| > 1 && t[1] == '\n' then "\n" + Universal(t[2..]) else "\n" + Universal(t[1..])
    else [t[0]] + Universal(t[1..])
  }

  /** The position of the first newline, or the length of the text. */
  function NewlineAt(t: string): (k: nat)
    ensures k <= |t| && (k < |t| ==> t[k] == '\n')
    ensures forall j :: 0 <= j < k ==> t[j] != '\n'
  {
    if t == [] || t[0] == '\n' then 0 else 1 + NewlineAt(t[1..])
  }

  /** The lines of the text, without their newlines (which `strip` removes anyway). */
  function Lines(t: string): seq<string>
    decreases |t|
  {
    var k := NewlineAt(t);
    if k == |t| then [t] else [t[..k]] + Lines(t[k + 1..])
  }

  /** `[line.strip() for line in filelist_fd if line.strip()]`. */
  function KeepEntries(lines: seq<string>): seq<string>
  {
    if lines == [] then []
    else
      var e := Strip(lines[0]);
      (if e == [] then [] else [e]) + KeepEntries(lines[1..])
  }

  /** Every entry read from the list is non-empty and has no surrounding whitespace. */
  lemma {:induction false} EntriesAreStripped(lines: seq<string>)
    ensures forall k :: 0 <= k < |KeepEntries(lines)| ==>
      KeepEntries(lines)[k] != [] && Strip(KeepEntries(lines)[k]) == KeepEntries(lines)[k]
  {
    if lines != [] {
      EntriesAreStripped(lines[1..]);
      StripIdempotent(lines[0]);
    }
  }

  lemma StripIdempotent(s: string)
    ensures Strip(Strip(s)) == Strip(s)
  {
    var t := Strip(s);
    if t != [] {
      var a := LeadingSpaces(s);
      var u := s[a..];
      assert t == u[..|u| - TrailingSpaces(u)];
      assert t[0] == u[0] && !IsSpace(u[0]);
      assert !IsSpace(t[|t| - 1]);
      assert t == [] + t + [];
      StripFramed([], t, []);
    }
  }

  /** The entries `combine_files_python` reads from `input.txt`. */
  function ParseList(text: string): seq<string>
  {
    KeepEntries(Lines(Universal(text)))
  }

  predicate IsListEntry(name: string)
  {
    name != [] && NoSpace(name)
  }

  lemma {:induction false} UniversalPlain(t: string)
    requires '\r' !in t
    ensures Universal(t) == t
  {
    if t != [] {
      assert '\r' !in t[1..] by { assert forall j :: 0 <= j < |t[1..]| ==> t[1..][j] == t[j + 1]; }
      UniversalPlain(t[1..]);
      assert t == [t[0]] + t[1..];
    }
  }

  lemma LinesOfEntry(n: string, rest: string)
    requires forall j :: 0 <= j < |n| ==> n[j] != '\n'
    ensures Lines(n + "\n" + rest) == [n] + Lines(rest)
  {
    var t := n + "\n" + rest;
    assert forall j :: 0 <= j < |n| ==> t[j] == n[j];
    assert t[|n|] == '\n';
    assert NewlineAt(t) == |n|;
    assert t[..|n|] == n && t[|n| + 1..] == rest;
  }

  lemma KeepEntry(n: string, lines: seq<string>)
    requires IsListEntry(n)
    ensures KeepEntries([n] + lines) == [n] + KeepEntries(lines)
  {
    StripNoSpace(n);
    assert ([n] + lines)[1..] == lines;
  }

  lemma {:induction false} RenderedNoCR(names: seq<string>)
    requires forall k :: 0 <= k < |names| ==> IsListEntry(names[k])
    ensures '\r' !in RenderList(names)
  {
    if names != [] {
      var n := names[0];
      RenderedNoCR(names[1..]);
      var rest := RenderList(names[1..]);
      var t := n + "\n" + rest;
      forall j | 0 <= j < |t| ensures t[j] != '\r' {
        if j < |n| {
          assert t[j] == n[j] && !IsSpace(n[j]);
        } else if j > |n| {
          assert t[j] == rest[j - |n| - 1];
        }
      }
    }
  }

  lemma EntryHasNoNewline(n: string)
    requires IsListEntry(n)
    ensures forall j :: 0 <= j < |n| ==> n[j] != '\n'
  {
    forall j | 0 <= j < |n| ensures n[j] != '\n' { assert !IsSpace(n[j]); }
  }

  lemma {:induction false} RenderedEntries(names: seq<string>)
    requires forall k :: 0 <= k < |names| ==> IsListEntry(names[k])
    ensures KeepEntries(Lines(RenderList(names))) == names
  {
    if names == [] {
      assert Lines([]) == [[]];
      assert Strip([]) == [];
    } else {
      var n := names[0];
      var tail := names[1..];
      assert forall k :: 0 <= k < |tail| ==> IsListEntry(tail[k]) by {
        forall k | 0 <= k < |tail| ensures IsListEntry(tail[k]) { assert tail[k] == names[k + 1]; }
      }
      RenderedEntries(tail);
      assert IsListEntry(n);
      EntryHasNoNewline(n);
      LinesOfEntry(n, RenderList(tail));
      KeepEntry(n, Lines(RenderList(tail)));
      assert [n] + tail == names;
    }
  }

  /** Round trip: the list file written for whitespace-free, non-empty names reads back as those names. */
  lemma ListRoundTrip(names: seq<string>)
    requires forall k :: 0 <= k < |names| ==> IsListEntry(names[k])
    ensures ParseList(RenderList(names)) == names
  {
    RenderedNoCR(names);
    RenderedEntries(names);
    UniversalPlain(RenderList(names));
  }

  // ---------------------------------------------------------------------------
  // combined.mp4 (lines 344-388)

  /** What reading `p` contributes: its bytes, or nothing when it does not exist. */
  function Contents(files: map<string, bytes>, p: string): bytes
  {
    if p in files then files[p] else []
  }

  /** The bytes of every listed path that exists, in list order; missing files are skipped. */
  function Assemble(files: map<string, bytes>, paths: seq<string>): bytes
  {
    if paths == [] then []
    else Assemble(files, paths[..|paths| - 1]) + Contents(files, paths[|paths| - 1])
  }

  lemma {:induction false} AssembleAppend(files: map<string, bytes>, a: seq<string>, b: seq<string>)
    ensures Assemble(files, a + b) == Assemble(files, a) + Assemble(files, b)
    decreases |b|
  {
    if b == [] {
      assert a + b == a;
    } else {
      var b' := b[..|b| - 1];
      assert (a + b)[..|a + b| - 1] == a + b';
      AssembleAppend(files, a, b');
    }
  }

  /** `combine_files_python`: fails without a list file or with an empty one,
      keeps an existing `combined.mp4`, and otherwise writes the listed files
      one after another. The output is created before the list is read, so a
      listed `combined.mp4` reads as empty. */
  method CombineFiles(disk: Disk) returns (ok: bool)
    modifies disk
    ensures ok <==> old(disk.listFile).Some? && old(disk.listFile).value != []
    ensures disk.listFile == old(disk.listFile)
    ensures disk.files ==
      if ok && CombinedMp4 !in old(disk.files)
      then old(disk.files)[CombinedMp4 := Assemble(old(disk.files)[CombinedMp4 := []], ParseList(old(disk.listFile).value))]
      else old(disk.files)
  {
    if disk.listFile.None? || disk.listFile.value == [] {
      return false;
    }
    if CombinedMp4 in disk.files {
      return true;
    }
    ghost var files0 := disk.files;
    disk.files := disk.files[CombinedMp4 := []];
    var paths := ParseList(disk.listFile.value);
    var out := ReadAll(disk.files, paths);
    OverwriteTwice(files0, CombinedMp4, [], out);
    disk.files := disk.files[CombinedMp4 := out];
    return true;
  }

  /** The loop of `combine_files_python` that appends each listed file that exists. */
  method ReadAll(files: map<string, bytes>, paths: seq<string>) returns (out: bytes)
    ensures out == Assemble(files, paths)
  {
    out := [];
    var i := 0;
    while i < |paths|
      invariant 0 <= i <= |paths|
      invariant out == Assemble(files, paths[..i])
    {
      assert paths[..i + 1][..i] == paths[..i];
      var p := paths[i];
      if p in files {
        out := out + files[p];
      }
      i := i + 1;
    }
    assert paths[..|paths|] == paths;
  }

  // ---------------------------------------------------------------------------
  // Download order survives the round trip through input.txt

  /** The files of segments `0 .. n-1`, in index order. */
  function SegPathList(n: nat): seq<string>
  {
    if n == 0 then [] else SegPathList(n - 1) + [SegPath(n - 1)]
  }

  lemma {:induction false} SegPathListAt(n: nat)
    ensures |SegPathList(n)| == n && forall k :: 0 <= k < n ==> SegPathList(n)[k] == SegPath(k)
  {
    if n > 0 {
      SegPathListAt(n - 1);
    }
  }

  /** The bytes of segments `0 .. n-1` in index order. */
  function SegmentBytes(files: map<string, bytes>, n: nat): bytes
  {
    if n == 0 then [] else SegmentBytes(files, n - 1) + Contents(files, SegPath(n - 1))
  }

  /** Every entry of the segment list is the file of the segment its key names. */
  lemma InSegPathList(x: string, n: nat)
    requires x in SegPathList(n)
    ensures NumericKey(x) >= 0 && x == SegPath(NumericKey(x))
  {
    SegPathListAt(n);
    var i :| 0 <= i < n && SegPathList(n)[i] == x;
    NumericKeyOfSegment(i);
  }

  lemma SegPathListSorted(n: nat)
    ensures SortedByKey(SegPathList(n), NumericKey)
  {
    var b := SegPathList(n);
    SegPathListAt(n);
    forall i, j | 0 <= i < j < n ensures NumericKey(b[i]) <= NumericKey(b[j]) {
      NumericKeyOfSegment(i);
      NumericKeyOfSegment(j);
    }
  }

  /** Whatever order the directory listing has, sorting by `numeric_key`
      puts the segment files back in download order. */
  lemma SortRestoresOrder(listing: seq<string>, n: nat)
    requires multiset(listing) == multiset(SegPathList(n))
    ensures SortByKey(listing, NumericKey) == SegPathList(n)
  {
    var a := SortByKey(listing, NumericKey);
    var b := SegPathList(n);
    SortSorts(listing, NumericKey);
    SortPermutes(listing, NumericKey);
    SegPathListSorted(n);
    forall i, j | 0 <= i < |a| && 0 <= j < |a| && NumericKey(a[i]) == NumericKey(a[j]) ensures a[i] == a[j] {
      assert a[i] in multiset(b) && a[j] in multiset(b);
      InSegPathList(a[i], n);
      InSegPathList(a[j], n);
    }
    SortedPermutationUnique(a, b, NumericKey);
  }

  lemma InitIsListEntry()
    ensures IsListEntry(InitMp4)
  {
  }

  lemma SegPathIsListEntry(i: nat)
    ensures IsListEntry(SegPath(i))
  {
    SegPathPlain(i);
  }

  /** End to end: when the download directory holds exactly the files of
      segments `0 .. n-1`, the list file read back names `init.mp4` followed
      by those files in index order, and the combined output is `init.mp4`
      followed by every segment in index order. */
  lemma CombinedInDownloadOrder(files: map<string, bytes>, listing: seq<string>, n: nat)
    requires multiset(listing) == multiset(SegPathList(n))
    ensures ParseList(RenderList(FileListNames(listing))) == [InitMp4] + SegPathList(n)
    ensures Assemble(files[CombinedMp4 := []], [InitMp4] + SegPathList(n)) == Contents(files, InitMp4) + SegmentBytes(files, n)
  {
    SortRestoresOrder(listing, n);
    ListedNamesAreEntries(n);
    ListRoundTrip([InitMp4] + SegPathList(n));
    SegmentsAfterInit(files, n);
  }

  lemma ListedNamesAreEntries(n: nat)
    ensures var names := [InitMp4] + SegPathList(n);
      forall k :: 0 <= k < |names| ==> IsListEntry(names[k])
  {
    var names := [InitMp4] + SegPathList(n);
    SegPathListAt(n);
    forall k | 0 <= k < |names| ensures IsListEntry(names[k]) {
      if k == 0 {
        InitIsListEntry();
      } else {
        assert names[k] == SegPath(k - 1);
        SegPathIsListEntry(k - 1);
      }
    }
  }

  lemma {:induction false} SegmentsAfterInit(files: map<string, bytes>, n: nat)
    ensures Assemble(files[CombinedMp4 := []], [InitMp4] + SegPathList(n)) == Contents(files, InitMp4) + SegmentBytes(files, n)
  {
    var truncated := files[CombinedMp4 := []];
    AssembleAppend(truncated, [InitMp4], SegPathList(n));
    assert Assemble(truncated, [InitMp4]) == Contents(files, InitMp4) by {
      assert [InitMp4][..0] == [];
    }
    AssembleSegments(files, n);
  }

  /** Truncating `combined.mp4` does not change what the segment files contribute. */
  lemma {:induction false} AssembleSegments(files: map<string, bytes>, n: nat)
    ensures Assemble(files[CombinedMp4 := []], SegPathList(n)) == SegmentBytes(files, n)
  {
    if n > 0 {
      AssembleSegments(files, n - 1);
      SegPathNotCombined(n - 1);
    }
  }

  lemma SegPathNotCombined(i: nat)
    ensures SegPath(i) != CombinedMp4
  {
    SegmentNameShape(i);
    assert SegPath(i)[0] == 'd';
  }
}
