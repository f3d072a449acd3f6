/** `Downloader.download_segment` and `download_segments` (lines 18-85, 189-264):
    every segment is downloaded to `downloads/NNNNNN.m4s` with retries,
    complete files from an earlier run are kept, and the files present at
    the end are collected in index order.

    A response is a parameter: `fetch(idx, attempt)` is what the GET of
    segment `idx` gives on that attempt. The thread pool is modelled by a
    `schedule`, the order in which the pool happens to run the tasks; each
    task touches only its own file, so the order does not change the result. */
module Download {
  import opened Wrappers
  import opened Bytes
  import opened Storage
  import opened SegmentNames

  /** How one attempt ends: no response (a connection error or an HTTP error
      status), a body cut off after some chunks, or a complete body. */
  datatype Outcome = RequestFailed | StreamFailed(partial: bytes) | Completed(body: bytes)

  type Fetch = (nat, nat) -> Outcome

  /** An attempt counts as a success when the whole body arrived and is not empty. */
  predicate Succeeds(o: Outcome)
  {
    o.Completed? && |o.body| > 0
  }

  /** `range(max_retries + 1)` has this many attempts. */
  function Attempts(maxRetries: int): nat
  {
    if maxRetries >= 0 then maxRetries + 1 else 0
  }

  /** The first successful attempt in `[k, limit)`. */
  function FirstSuccess(fetch: Fetch, idx: nat, k: nat, limit: nat): (r: Option<nat>)
    ensures r.Some? ==> k <= r.value < limit && Succeeds(fetch(idx, r.value))
    ensures r.Some? ==> forall a :: k <= a < r.value ==> !Succeeds(fetch(idx, a))
    ensures r.None? ==> forall a :: k <= a < limit ==> !Succeeds(fetch(idx, a))
    decreases limit - k
  {
    if k >= limit then None
    else if Succeeds(fetch(idx, k)) then Some(k)
    else FirstSuccess(fetch, idx, k + 1, limit)
  }

  /** The segment's file after `download_segment`, from the file before it:
      the body of the first successful attempt, or no file once every attempt
      failed; with no attempts at all the file is left as it was. */
  function SegmentFile(prior: Option<bytes>, idx: nat, maxRetries: int, fetch: Fetch): Option<bytes>
  {
    if maxRetries < 0 then prior
    else match FirstSuccess(fetch, idx, 0, Attempts(maxRetries))
      case Some(a) => Some(fetch(idx, a).body)
      case None => None
  }

  /** `download_segment` fails, and counts a failure, when it made attempts and none succeeded. */
  predicate SegmentFails(idx: nat, maxRetries: int, fetch: Fetch)
  {
    maxRetries >= 0 && FirstSuccess(fetch, idx, 0, Attempts(maxRetries)).None?
  }

  /** The result depends only on the attempts the retry bound allows. */
  lemma OnlyAllowedAttemptsMatter(prior: Option<bytes>, idx: nat, maxRetries: int, f: Fetch, g: Fetch)
    requires forall a: nat :: a < Attempts(maxRetries) ==> f(idx, a) == g(idx, a)
    ensures SegmentFile(prior, idx, maxRetries, f) == SegmentFile(prior, idx, maxRetries, g)
    ensures SegmentFails(idx, maxRetries, f) == SegmentFails(idx, maxRetries, g)
  {
    if maxRetries >= 0 {
      SameFirstSuccess(idx, 0, Attempts(maxRetries), f, g);
    }
  }

  lemma {:induction false} SameFirstSuccess(idx: nat, k: nat, limit: nat, f: Fetch, g: Fetch)
    requires forall a :: k <= a < limit ==> f(idx, a) == g(idx, a)
    ensures FirstSuccess(f, idx, k, limit) == FirstSuccess(g, idx, k, limit)
    decreases limit - k
  {
    if k < limit {
      SameFirstSuccess(idx, k + 1, limit, f, g);
    }
  }

  /** A file already larger than 1024 bytes is not downloaded again (line 229). */
  predicate Skipped(prior: Option<bytes>)
  {
    prior.Some? && |prior.value| > 1024
  }

  /** The segment's file after `download_segments`. */
  function TaskFile(prior: Option<bytes>, idx: nat, maxRetries: int, fetch: Fetch): Option<bytes>
  {
    if Skipped(prior) then prior else SegmentFile(prior, idx, maxRetries, fetch)
  }

  /** Running the download again with the same responses leaves every segment file as it is. */
  lemma RerunChangesNothing(prior: Option<bytes>, idx: nat, maxRetries: int, fetch: Fetch)
    ensures TaskFile(TaskFile(prior, idx, maxRetries, fetch), idx, maxRetries, fetch)
         == TaskFile(prior, idx, maxRetries, fetch)
  {
  }

  /** With at least one attempt, a segment ends with a non-empty file exactly when
      it was kept or some allowed attempt succeeded; a new file is the body of a successful attempt. */
  lemma TaskFilePresentIff(prior: Option<bytes>, idx: nat, maxRetries: int, fetch: Fetch)
    requires maxRetries >= 0
    ensures var r := TaskFile(prior, idx, maxRetries, fetch);
      (r.Some? && |r.value| > 0) <==>
        (Skipped(prior) || exists a: nat :: a < Attempts(maxRetries) && Succeeds(fetch(idx, a)))
    ensures !Skipped(prior) && TaskFile(prior, idx, maxRetries, fetch).Some? ==>
      exists a: nat :: a < Attempts(maxRetries) && Succeeds(fetch(idx, a))
        && TaskFile(prior, idx, maxRetries, fetch) == Some(fetch(idx, a).body)
  {
    var fs := FirstSuccess(fetch, idx, 0, Attempts(maxRetries));
    if fs.Some? {
      var a := fs.value;
      assert a < Attempts(maxRetries) && Succeeds(fetch(idx, a));
    }
  }

  /** The download progress counters (lines 18-24); the lock, the start time
      and the progress line itself are not modelled. */
  class Downloader {
    var completed: nat
    var total: nat
    var failed: nat

    constructor ()
      ensures completed == 0 && total == 0 && failed == 0
    {
      completed := 0;
      total := 0;
      failed := 0;
    }

    /** `download_segment`: up to `max_retries + 1` attempts; every attempt that
        gets a response rewrites the file; the first non-empty complete body
        counts as completed; after the last failed attempt the segment counts
        as completed and failed and its file is removed. */
    method DownloadSegment(idx: nat, path: string, maxRetries: int, fetch: Fetch, disk: Disk) returns (ok: bool)
      modifies this, disk
      ensures ok <==> maxRetries >= 0 && !SegmentFails(idx, maxRetries, fetch)
      ensures disk.files == Put(old(disk.files), path, SegmentFile(Get(old(disk.files), path), idx, maxRetries, fetch))
      ensures disk.listFile == old(disk.listFile)
      ensures completed == old(completed) + (if maxRetries >= 0 then 1 else 0)
      ensures failed == old(failed) + (if SegmentFails(idx, maxRetries, fetch) then 1 else 0)
      ensures total == old(total)
    {
      ghost var files0 := disk.files;
      ghost var limit := Attempts(maxRetries);
      ghost var target := SegmentFile(Get(files0, path), idx, maxRetries, fetch);
      ghost var cur := Get(files0, path);
      PutSame(files0, path);
      var retry := 0;
      while retry < maxRetries + 1
        invariant maxRetries >= 0 ==> retry <= maxRetries
        invariant maxRetries < 0 ==> retry == 0
        invariant FirstSuccess(fetch, idx, 0, limit) == FirstSuccess(fetch, idx, retry, limit)
        invariant disk.files == Put(files0, path, cur)
        invariant retry == 0 ==> cur == Get(files0, path)
        invariant disk.listFile == old(disk.listFile)
        invariant completed == old(completed) && failed == old(failed) && total == old(total)
        decreases maxRetries - retry
      {
        var o := fetch(idx, retry);
        match o {
          case RequestFailed =>
          case StreamFailed(partial) =>
            PutTwice(files0, path, cur, Some(partial));
            disk.files := disk.files[path := partial];
            cur := Some(partial);
          case Completed(body) =>
            PutTwice(files0, path, cur, Some(body));
            disk.files := disk.files[path := body];
            cur := Some(body);
        }
        if Succeeds(o) {
          completed := completed + 1;
          assert cur == target;
          return true;
        }
        if retry < maxRetries {
          retry := retry + 1;
        } else {
          completed := completed + 1;
          failed := failed + 1;
          PutTwice(files0, path, cur, None);
          if path in disk.files {
            disk.files := disk.files - {path};
          } else {
            assert disk.files - {path} == disk.files;
          }
          assert target == None;
          return false;
        }
      }
      return false;
    }
  }

  /** `p` is the file of one of the first `n` segments. */
  predicate IsTaskPath(p: string, n: nat)
  {
    0 <= NumericKey(p) < n && p == SegPath(NumericKey(p))
  }

  lemma SegPathIsTaskPath(i: nat, n: nat)
    requires i < n
    ensures IsTaskPath(SegPath(i), n)
  {
    NumericKeyOfSegment(i);
  }

  /** The order in which the pool runs the tasks of `n` segments: each index once. */
  predicate IsRunOrder(schedule: seq<nat>, n: nat)
  {
    && (forall k :: 0 <= k < |schedule| ==> schedule[k] < n)
    && (forall k, l :: 0 <= k < l < |schedule| ==> schedule[k] != schedule[l])
    && (forall j :: 0 <= j < n ==> j in schedule)
    && |schedule| == n
  }

  /** A file that exists and is not empty (line 253). */
  predicate Present(files: map<string, bytes>, p: string)
  {
    p in files && |files[p]| > 0
  }

  /** The indices below `n` whose segment file is present, in increasing order. */
  function PresentIndices(files: map<string, bytes>, n: nat): (r: seq<nat>)
    ensures forall k :: 0 <= k < |r| ==> r[k] < n
    ensures forall k, l :: 0 <= k < l < |r| ==> r[k] < r[l]
    ensures forall i: nat :: i in r <==> i < n && Present(files, SegPath(i))
  {
    if n == 0 then []
    else PresentIndices(files, n - 1) + (if Present(files, SegPath(n - 1)) then [n - 1] else [])
  }

  /** The segments below `n` kept from an earlier run. */
  ghost function KeptTasks(files: map<string, bytes>, n: nat): set<nat>
  {
    set j | 0 <= j < n && Skipped(Get(files, SegPath(j)))
  }

  /** The tasks among the first `k` of the run order that are submitted, and those that fail. */
  ghost function RanTasks(files: map<string, bytes>, schedule: seq<nat>, k: nat): set<nat>
    requires k <= |schedule|
  {
    set j | j in schedule[..k] && !Skipped(Get(files, SegPath(j)))
  }

  ghost function FailedRan(files: map<string, bytes>, schedule: seq<nat>, k: nat, maxRetries: int, fetch: Fetch): set<nat>
    requires k <= |schedule|
  {
    set j | j in schedule[..k] && !Skipped(Get(files, SegPath(j))) && SegmentFails(j, maxRetries, fetch)
  }

  /** The segments of the first `n` that were submitted (not kept) and failed. */
  ghost function FailedTasks(files: map<string, bytes>, n: nat, maxRetries: int, fetch: Fetch): set<nat>
  {
    set j | 0 <= j < n && !Skipped(Get(files, SegPath(j))) && SegmentFails(j, maxRetries, fetch)
  }

  /** Which of the first `n` segments are handed to the pool. */
  function SubmitFlags(files: map<string, bytes>, n: nat): (r: seq<bool>)
    ensures |r| == n
  {
    if n == 0 then [] else SubmitFlags(files, n - 1) + [!Skipped(Get(files, SegPath(n - 1)))]
  }

  lemma {:induction false} SubmitFlagsMeaning(files: map<string, bytes>, n: nat)
    ensures forall j :: 0 <= j < n ==> SubmitFlags(files, n)[j] == !Skipped(Get(files, SegPath(j)))
  {
    if n > 0 {
      SubmitFlagsMeaning(files, n - 1);
      assert forall j :: 0 <= j < n - 1 ==> SubmitFlags(files, n)[j] == SubmitFlags(files, n - 1)[j];
    }
  }

  /** Lines 226-232: the skip check for every task, in index order. `submitted[j]`
      says whether segment `j` is handed to the pool. */
  method CheckExisting(n: nat, disk: Disk, d: Downloader) returns (submitted: seq<bool>)
    modifies d
    ensures |submitted| == n
    ensures forall j :: 0 <= j < n ==> submitted[j] == !Skipped(Get(disk.files, SegPath(j)))
    ensures d.completed == old(d.completed) + |KeptTasks(disk.files, n)|
    ensures d.failed == old(d.failed) && d.total == old(d.total)
  {
    submitted := [];
    var i := 0;
    while i < n
      invariant 0 <= i <= n
      invariant submitted == SubmitFlags(disk.files, i)
      invariant d.completed == old(d.completed) + |KeptTasks(disk.files, i)|
      invariant d.failed == old(d.failed) && d.total == old(d.total)
    {
      var skip := Skipped(Get(disk.files, SegPath(i)));
      KeptStep(disk.files, i);
      if skip {
        d.completed := d.completed + 1;
      }
      submitted := submitted + [!skip];
      i := i + 1;
    }
    SubmitFlagsMeaning(disk.files, n);
  }

  /** The pool runs the submitted tasks, in the order `schedule` gives. */
  method RunTasks(n: nat, schedule: seq<nat>, submitted: seq<bool>, maxRetries: int, fetch: Fetch, disk: Disk, d: Downloader)
    requires IsRunOrder(schedule, n) && |submitted| == n
    requires forall j :: 0 <= j < n ==> submitted[j] == !Skipped(Get(disk.files, SegPath(j)))
    modifies disk, d
    ensures disk.listFile == old(disk.listFile)
    ensures forall j :: 0 <= j < n ==>
      Get(disk.files, SegPath(j)) == TaskFile(Get(old(disk.files), SegPath(j)), j, maxRetries, fetch)
    ensures forall p :: !IsTaskPath(p, n) ==> Get(disk.files, p) == Get(old(disk.files), p)
    ensures d.failed == old(d.failed) + |FailedRan(old(disk.files), schedule, n, maxRetries, fetch)|
    ensures maxRetries >= 0 ==> d.completed == old(d.completed) + |RanTasks(old(disk.files), schedule, n)|
    ensures d.total == old(d.total)
  {
    ghost var files0 := disk.files;
    var k := 0;
    while k < n
      invariant 0 <= k <= n
      invariant d.total == old(d.total)
      invariant FilesAfter(disk.files, files0, schedule, k, n, maxRetries, fetch)
      invariant SameOutside(disk.files, files0, n)
      invariant disk.listFile == old(disk.listFile)
      invariant d.failed == old(d.failed) + |FailedRan(files0, schedule, k, maxRetries, fetch)|
      invariant maxRetries >= 0 ==> d.completed == old(d.completed) + |RanTasks(files0, schedule, k)|
    {
      var j := schedule[k];
      assert j !in schedule[..k];
      ghost var before := disk.files;
      NotYetRun(before, files0, schedule, k, n, maxRetries, fetch);
      RunOne(j, n, submitted[j], maxRetries, fetch, disk, d);
      FilesStep(disk.files, before, files0, schedule, k, n, maxRetries, fetch);
      SameOutsideTrans(disk.files, before, files0, n);
      RanStep(files0, schedule, k, maxRetries, fetch);
      k := k + 1;
    }
    FilesDone(disk.files, files0, schedule, n, maxRetries, fetch);
  }

  /** Every file other than the first `n` segments' is as in `files0`. */
  ghost predicate SameOutside(files: map<string, bytes>, files0: map<string, bytes>, n: nat)
  {
    forall p :: !IsTaskPath(p, n) ==> Get(files, p) == Get(files0, p)
  }

  lemma SameOutsideTrans(after: map<string, bytes>, before: map<string, bytes>, files0: map<string, bytes>, n: nat)
    requires forall p :: !IsTaskPath(p, n) ==> Get(after, p) == Get(before, p)
    requires SameOutside(before, files0, n)
    ensures SameOutside(after, files0, n)
  {
  }

  /** After the first `k` tasks of `schedule`, exactly their segment files have their final content. */
  ghost predicate FilesAfter(files: map<string, bytes>, files0: map<string, bytes>, schedule: seq<nat>, k: nat, n: nat, maxRetries: int, fetch: Fetch)
    requires k <= |schedule|
  {
    forall j :: 0 <= j < n ==> (Get(files, SegPath(j)) ==
      if j in schedule[..k] then TaskFile(Get(files0, SegPath(j)), j, maxRetries, fetch) else Get(files0, SegPath(j)))
  }

  /** Running task `schedule[k]`, or skipping it when its file was kept, extends `FilesAfter` by one task. */
  lemma FilesStep(after: map<string, bytes>, before: map<string, bytes>, files0: map<string, bytes>, schedule: seq<nat>, k: nat, n: nat, maxRetries: int, fetch: Fetch)
    requires k < |schedule| && schedule[k] < n && schedule[k] !in schedule[..k]
    requires FilesAfter(before, files0, schedule, k, n, maxRetries, fetch)
    requires var j := schedule[k];
      Get(after, SegPath(j)) == TaskFile(Get(before, SegPath(j)), j, maxRetries, fetch)
    requires forall i :: 0 <= i < n && i != schedule[k] ==> Get(after, SegPath(i)) == Get(before, SegPath(i))
    ensures FilesAfter(after, files0, schedule, k + 1, n, maxRetries, fetch)
  {
    assert schedule[..k + 1] == schedule[..k] + [schedule[k]];
  }

  /** The task about to run has not changed its file yet. */
  lemma NotYetRun(files: map<string, bytes>, files0: map<string, bytes>, schedule: seq<nat>, k: nat, n: nat, maxRetries: int, fetch: Fetch)
    requires k < |schedule| && schedule[k] < n && schedule[k] !in schedule[..k]
    requires FilesAfter(files, files0, schedule, k, n, maxRetries, fetch)
    ensures Get(files, SegPath(schedule[k])) == Get(files0, SegPath(schedule[k]))
  {
  }

  lemma FilesDone(files: map<string, bytes>, files0: map<string, bytes>, schedule: seq<nat>, n: nat, maxRetries: int, fetch: Fetch)
    requires IsRunOrder(schedule, n)
    requires FilesAfter(files, files0, schedule, |schedule|, n, maxRetries, fetch)
    ensures forall j :: 0 <= j < n ==> Get(files, SegPath(j)) == TaskFile(Get(files0, SegPath(j)), j, maxRetries, fetch)
  {
    assert schedule[..|schedule|] == schedule;
  }

  /** One task of the pool: `download_segment` for segment `j` when it was
      submitted, which touches only that segment's file. */
  method RunOne(j: nat, n: nat, submit: bool, maxRetries: int, fetch: Fetch, disk: Disk, d: Downloader)
    requires j < n && submit == !Skipped(Get(disk.files, SegPath(j)))
    modifies disk, d
    ensures disk.listFile == old(disk.listFile)
    ensures Get(disk.files, SegPath(j)) == TaskFile(Get(old(disk.files), SegPath(j)), j, maxRetries, fetch)
    ensures forall i :: 0 <= i < n && i != j ==> Get(disk.files, SegPath(i)) == Get(old(disk.files), SegPath(i))
    ensures forall p :: !IsTaskPath(p, n) ==> Get(disk.files, p) == Get(old(disk.files), p)
    ensures d.completed == old(d.completed) + (if submit && maxRetries >= 0 then 1 else 0)
    ensures d.failed == old(d.failed) + (if submit && SegmentFails(j, maxRetries, fetch) then 1 else 0)
    ensures d.total == old(d.total)
  {
    if submit {
      var _ := d.DownloadSegment(j, SegPath(j), maxRetries, fetch, disk);
      forall i | 0 <= i < n && i != j ensures Get(disk.files, SegPath(i)) == Get(old(disk.files), SegPath(i)) {
        SegPathInjective(j, i);
      }
      forall p | !IsTaskPath(p, n) ensures Get(disk.files, p) == Get(old(disk.files), p) {
        SegPathIsTaskPath(j, n);
      }
    }
  }

  /** Lines 249-256: the paths of the segment files present, in index order. */
  method CollectDownloaded(n: nat, disk: Disk) returns (downloaded: seq<string>)
    ensures |downloaded| == |PresentIndices(disk.files, n)|
    ensures forall k :: 0 <= k < |downloaded| ==> downloaded[k] == SegPath(PresentIndices(disk.files, n)[k])
  {
    downloaded := [];
    var i := 0;
    while i < n
      invariant 0 <= i <= n
      invariant |downloaded| == |PresentIndices(disk.files, i)|
      invariant forall k :: 0 <= k < |downloaded| ==> downloaded[k] == SegPath(PresentIndices(disk.files, i)[k])
    {
      var p := SegPath(i);
      if p in disk.files && |disk.files[p]| > 0 {
        downloaded := downloaded + [p];
      }
      i := i + 1;
    }
  }

  /** `download_segments`. The results are the returned list and the
      downloader's counters at the end: `completed`, `failed` and `total` (all
      zero for an empty list, where no downloader is made). */
  method DownloadSegments(urls: seq<string>, maxRetries: int, fetch: Fetch, schedule: seq<nat>, disk: Disk)
    returns (downloaded: seq<string>, completed: nat, failed: nat, total: nat)
    requires IsRunOrder(schedule, |urls|)
    modifies disk
    ensures disk.listFile == old(disk.listFile)
    ensures forall i :: 0 <= i < |urls| ==>
      Get(disk.files, SegPath(i)) == TaskFile(Get(old(disk.files), SegPath(i)), i, maxRetries, fetch)
    ensures forall p :: !IsTaskPath(p, |urls|) ==> Get(disk.files, p) == Get(old(disk.files), p)
    ensures |downloaded| == |PresentIndices(disk.files, |urls|)|
    ensures forall k :: 0 <= k < |downloaded| ==> downloaded[k] == SegPath(PresentIndices(disk.files, |urls|)[k])
    ensures maxRetries >= 0 ==> completed == |urls|
    ensures failed == |FailedTasks(old(disk.files), |urls|, maxRetries, fetch)|
    ensures maxRetries >= 0 ==> failed <= completed
    ensures total == |urls|
  {
    var n := |urls|;
    if n == 0 {
      assert FailedTasks(disk.files, n, maxRetries, fetch) == {};
      return [], 0, 0, 0;
    }
    var d := new Downloader();
    d.total := n;
    var submitted := CheckExisting(n, disk, d);
    ghost var files0 := disk.files;
    RunTasks(n, schedule, submitted, maxRetries, fetch, disk, d);
    assert schedule[..n] == schedule;
    assert FailedRan(files0, schedule, n, maxRetries, fetch) == FailedTasks(files0, n, maxRetries, fetch);
    if maxRetries >= 0 {
      CountSplit(files0, n, schedule);
      SubsetCount(FailedRan(files0, schedule, n, maxRetries, fetch), RanTasks(files0, schedule, n));
    }
    downloaded := CollectDownloaded(n, disk);
    completed, failed, total := d.completed, d.failed, d.total;
  }

  lemma KeptStep(files: map<string, bytes>, i: nat)
    ensures |KeptTasks(files, i + 1)| == |KeptTasks(files, i)| + (if Skipped(Get(files, SegPath(i))) then 1 else 0)
  {
    var k := KeptTasks(files, i);
    assert i !in k;
    assert KeptTasks(files, i + 1) == k + (if Skipped(Get(files, SegPath(i))) then {i} else {});
  }

  lemma RanStep(files: map<string, bytes>, schedule: seq<nat>, k: nat, maxRetries: int, fetch: Fetch)
    requires k < |schedule| && schedule[k] !in schedule[..k]
    ensures var j := schedule[k];
      |RanTasks(files, schedule, k + 1)| == |RanTasks(files, schedule, k)| + (if !Skipped(Get(files, SegPath(j))) then 1 else 0)
    ensures var j := schedule[k];
      |FailedRan(files, schedule, k + 1, maxRetries, fetch)| == |FailedRan(files, schedule, k, maxRetries, fetch)|
        + (if !Skipped(Get(files, SegPath(j))) && SegmentFails(j, maxRetries, fetch) then 1 else 0)
  {
    var run := (j: nat) => !Skipped(Get(files, SegPath(j)));
    var fails := (j: nat) => run(j) && SegmentFails(j, maxRetries, fetch);
    assert schedule[..k + 1] == schedule[..k] + [schedule[k]];
    AddOne(schedule[..k], schedule[k], run);
    AddOne(schedule[..k], schedule[k], fails);
    assert RanTasks(files, schedule, k) == Matching(schedule[..k], run);
    assert RanTasks(files, schedule, k + 1) == Matching(schedule[..k + 1], run);
    assert FailedRan(files, schedule, k, maxRetries, fetch) == Matching(schedule[..k], fails);
    assert FailedRan(files, schedule, k + 1, maxRetries, fetch) == Matching(schedule[..k + 1], fails);
  }

  /** The elements of `s` that satisfy `keep`. */
  ghost function Matching(s: seq<nat>, keep: nat -> bool): set<nat>
  {
    set j | j in s && keep(j)
  }

  lemma AddOne(s: seq<nat>, x: nat, keep: nat -> bool)
    requires x !in s
    ensures |Matching(s + [x], keep)| == |Matching(s, keep)| + (if keep(x) then 1 else 0)
  {
    assert Matching(s + [x], keep) == Matching(s, keep) + (if keep(x) then {x} else {});
  }

  /** The distinct elements of a sequence. */
  ghost function Elements(s: seq<nat>): set<nat>
  {
    set x | x in s
  }

  /** Every segment is either kept or submitted. */
  lemma CountSplit(files: map<string, bytes>, n: nat, schedule: seq<nat>)
    requires IsRunOrder(schedule, n)
    ensures |KeptTasks(files, n)| + |RanTasks(files, schedule, n)| == n
  {
    var kept := KeptTasks(files, n);
    var run := RanTasks(files, schedule, n);
    assert schedule[..n] == schedule;
    assert kept + run == Elements(schedule);
    assert kept * run == {};
    DistinctElements(schedule);
  }

  lemma SubsetCount(a: set<nat>, b: set<nat>)
    requires a <= b
    ensures |a| <= |b|
  {
    assert b == a + (b - a);
  }

  lemma {:induction false} DistinctElements(s: seq<nat>)
    requires forall k, l :: 0 <= k < l < |s| ==> s[k] != s[l]
    ensures |Elements(s)| == |s|
  {
    if s != [] {
      var t := s[..|s| - 1];
      var last := s[|s| - 1];
      DistinctElements(t);
      assert s == t + [last];
      assert Elements(s) == Elements(t) + {last};
      assert last !in Elements(t);
    }
  }
}
