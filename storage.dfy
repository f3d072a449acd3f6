/** The script directory as the program sees it. */
module Storage {
  import opened Wrappers
  import opened Bytes

  const InitMp4: string := "init.mp4"
  const ListName: string := "input.txt"
  const CombinedMp4: string := "combined.mp4"

  /** Binary files by path relative to the script directory, and the text of
      `input.txt`, which the program writes and reads in text mode. */
  class Disk {
    var files: map<string, bytes>
    var listFile: Option<string>

    constructor (files0: map<string, bytes>, list0: Option<string>)
      ensures files == files0 && listFile == list0
    {
      files := files0;
      listFile := list0;
    }
  }

  /** The contents of `p`, if it exists. */
  function Get(m: map<string, bytes>, p: string): Option<bytes>
  {
    if p in m then Some(m[p]) else None
  }

  /** `p` written with `v`, or removed when `v` is `None`; no other file changes. */
  function Put(m: map<string, bytes>, p: string, v: Option<bytes>): (r: map<string, bytes>)
    ensures Get(r, p) == v
    ensures forall q :: q != p ==> Get(r, q) == Get(m, q)
  {
    match v
    case Some(b) => m[p := b]
    case None => m - {p}
  }

  /** Two directories with the same contents at every path are the same. */
  lemma SameFiles(a: map<string, bytes>, b: map<string, bytes>)
    requires forall q :: Get(a, q) == Get(b, q)
    ensures a == b
  {
    assert a.Keys == b.Keys by {
      forall q ensures q in a <==> q in b {
        assert Get(a, q) == Get(b, q);
      }
    }
    forall q | q in a ensures a[q] == b[q] {
      assert Get(a, q) == Get(b, q);
    }
  }

  /** Writing a file with what it already holds changes nothing. */
  lemma PutSame(m: map<string, bytes>, p: string)
    ensures Put(m, p, Get(m, p)) == m
  {
    SameFiles(Put(m, p, Get(m, p)), m);
  }

  /** A second write of the same file replaces the first. */
  lemma PutTwice(m: map<string, bytes>, p: string, u: Option<bytes>, v: Option<bytes>)
    ensures Put(Put(m, p, u), p, v) == Put(m, p, v)
  {
    SameFiles(Put(Put(m, p, u), p, v), Put(m, p, v));
  }

  lemma OverwriteTwice(m: map<string, bytes>, p: string, u: bytes, v: bytes)
    ensures m[p := u][p := v] == m[p := v]
  {
  }
}
