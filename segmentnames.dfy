/** Segment file names: `f"{idx:06d}.m4s"` when they are written (line 220)
    and `numeric_key` when they are sorted (lines 303-309). */
module SegmentNames {
  import opened PyText

  const Width: nat := 6
  const M4s: string := ".m4s"
  const DownloadsDir: string := "downloads/"

  function DigitChar(d: nat): char
    requires d < 10
  {
    ('0' as int + d) as char
  }

  predicate AllDigits(s: string)
  {
    forall i :: 0 <= i < |s| ==> IsDigit(s[i])
  }

  /** The decimal representation of `n`, without leading zeros. */
  function Decimal(n: nat): string
  {
    if n < 10 then [DigitChar(n)] else Decimal(n / 10) + [DigitChar(n % 10)]
  }

  /** `int(s)` on a run of ASCII digits. */
  function ParseDigits(s: string): nat
    requires AllDigits(s)
  {
    if s == [] then 0 else 10 * ParseDigits(s[..|s| - 1]) + (s[|s| - 1] as int - '0' as int)
  }

  /** `int` inverts the decimal representation, which has at least one digit. */
  lemma {:induction false} ParseDecimal(n: nat)
    ensures |Decimal(n)| >= 1 && AllDigits(Decimal(n))
    ensures ParseDigits(Decimal(n)) == n
  {
    if n >= 10 {
      var d := Decimal(n / 10) + [DigitChar(n % 10)];
      ParseDecimal(n / 10);
      assert d[..|d| - 1] == Decimal(n / 10);
    }
  }

  /** Leading zeros do not change the value `int` reads. */
  lemma {:induction false} ParseLeadingZeros(z: string, s: string)
    requires forall i :: 0 <= i < |z| ==> z[i] == '0'
    requires AllDigits(s)
    ensures AllDigits(z + s) && ParseDigits(z + s) == ParseDigits(s)
    decreases |s|
  {
    assert AllDigits(z + s) by {
      forall i | 0 <= i < |z + s| ensures IsDigit((z + s)[i]) {
        if i < |z| { assert (z + s)[i] == z[i]; } else { assert (z + s)[i] == s[i - |z|]; }
      }
    }
    if s == [] {
      assert z + s == z;
      AllZeros(z);
    } else {
      var t := z + s;
      assert t[..|t| - 1] == z + s[..|s| - 1];
      assert t[|t| - 1] == s[|s| - 1];
      ParseLeadingZeros(z, s[..|s| - 1]);
    }
  }

  lemma {:induction false} AllZeros(z: string)
    requires forall i :: 0 <= i < |z| ==> z[i] == '0'
    ensures AllDigits(z) && ParseDigits(z) == 0
  {
    if z != [] {
      AllZeros(z[..|z| - 1]);
    }
  }

  function Zeros(n: nat): string
  {
    if n == 0 then [] else Zeros(n - 1) + ['0']
  }

  lemma {:induction false} ZerosShape(n: nat)
    ensures |Zeros(n)| == n && forall i :: 0 <= i < n ==> Zeros(n)[i] == '0'
  {
    if n > 0 {
      ZerosShape(n - 1);
    }
  }

  /** `f"{idx:06d}"`: the decimal digits, left-padded with zeros to six places. */
  function Padded(idx: nat): string
  {
    var d := Decimal(idx);
    Zeros(if |d| < Width then Width - |d| else 0) + d
  }

  /** The padded form has at least six digits and reads back as `idx`. */
  lemma PaddedValue(idx: nat)
    ensures AllDigits(Padded(idx)) && |Padded(idx)| >= Width
    ensures ParseDigits(Padded(idx)) == idx
  {
    var d := Decimal(idx);
    var z := Zeros(if |d| < Width then Width - |d| else 0);
    ParseDecimal(idx);
    ZerosShape(if |d| < Width then Width - |d| else 0);
    ParseLeadingZeros(z, d);
  }

  /** The name of segment `idx` on disk, relative to the download directory. */
  function SegmentName(idx: nat): string
  {
    Padded(idx) + M4s
  }

  /** Its path relative to the script directory. */
  function SegPath(idx: nat): string
  {
    DownloadsDir + SegmentName(idx)
  }

  /** `os.path.basename` on a POSIX path. */
  function Basename(p: string): (r: string)
    ensures forall i :: 0 <= i < |r| ==> r[i] != '/'
  {
    p[AfterLastSlash(p)..]
  }

  /** The start of the longest run of digits that ends at `k`. */
  function DigitRunStart(s: string, k: nat): (i: nat)
    requires k <= |s|
    ensures i <= k && (forall j :: i <= j < k ==> IsDigit(s[j]))
    ensures i > 0 ==> !IsDigit(s[i - 1])
  {
    if k == 0 || !IsDigit(s[k - 1]) then k else DigitRunStart(s, k - 1)
  }

  /** The base name of `dir/name` is `name` when `name` has no slash. */
  lemma BasenameAfterSlash(dir: string, name: string)
    requires forall i :: 0 <= i < |name| ==> name[i] != '/'
    ensures Basename(dir + "/" + name) == name
  {
    var p := dir + "/" + name;
    assert p[|dir|] == '/';
    forall i | |dir| < i < |p| ensures p[i] != '/' {
      assert p[i] == name[i - |dir| - 1];
    }
    assert AfterLastSlash(p) == |dir| + 1;
  }

  /** The regular expression of `numeric_key` applied to a base name. */
  function KeyOfName(b: string): (r: int)
    ensures r >= -1
    ensures r >= 0 ==> EndsWith(b, M4s) || EndsWith(b, M4s + "\n")
  {
    var t := if EndsWith(b, "\n") then b[..|b| - 1] else b;
    if !EndsWith(t, M4s) then -1
    else
      var k := |t| - |M4s|;
      var i := DigitRunStart(t, k);
      if i == k then -1 else ParseDigits(t[i..k])
  }

  /** `numeric_key`: `re.search(r'(\d+)\.m4s$', basename)`, whose `$` also
      matches before one final newline, read as an integer; `-1` without a match. */
  function NumericKey(path: string): int
  {
    KeyOfName(Basename(path))
  }

  /** A name ending in digits and `.m4s` has the value of those digits as its key. */
  lemma KeyReadsDigits(stem: string, digits: string)
    requires stem == [] || !IsDigit(stem[|stem| - 1])
    requires digits != [] && AllDigits(digits)
    ensures KeyOfName(stem + digits + M4s) == ParseDigits(digits)
  {
    var b := stem + digits + M4s;
    assert !EndsWith(b, "\n") by { assert b[|b| - 1] == 's'; }
    var k := |b| - |M4s|;
    assert b[k..] == M4s;
    assert b[..k] == stem + digits;
    forall j | |stem| <= j < k ensures IsDigit(b[j]) {
      assert b[j] == digits[j - |stem|];
    }
    if stem != [] {
      assert b[|stem| - 1] == stem[|stem| - 1];
    }
    var i := DigitRunStart(b, k);
    assert i == |stem|;
    assert b[i..k] == digits;
  }

  /** A name ending in `.m4s` without a digit right before it has key `-1`. */
  lemma KeyWithoutDigits(stem: string)
    requires stem == [] || !IsDigit(stem[|stem| - 1])
    ensures KeyOfName(stem + M4s) == -1
  {
    var b := stem + M4s;
    assert !EndsWith(b, "\n") by { assert b[|b| - 1] == 's'; }
    assert b[|b| - |M4s|..] == M4s;
    if stem != [] {
      assert b[|stem| - 1] == stem[|stem| - 1];
    }
  }

  /** A name that does not end in `.m4s`, or `.m4s` and one newline, has key `-1`. */
  lemma KeyWithoutSuffix(b: string)
    requires !EndsWith(b, M4s) && !EndsWith(b, M4s + "\n")
    ensures KeyOfName(b) == -1
  {
  }

  /** The key of a segment's file is its index: sorting by key restores download order. */
  lemma NumericKeyOfSegment(idx: nat)
    ensures NumericKey(SegPath(idx)) == idx
  {
    var n := SegmentName(idx);
    SegmentNameShape(idx);
    BasenameAfterSlash("downloads", n);
    assert SegPath(idx) == "downloads" + "/" + n;
    PaddedValue(idx);
    KeyOfDigits(Padded(idx));
  }

  lemma KeyOfDigits(digits: string)
    requires digits != [] && AllDigits(digits)
    ensures KeyOfName(digits + M4s) == ParseDigits(digits)
  {
    assert [] + digits + M4s == digits + M4s;
    KeyReadsDigits([], digits);
  }

  /** Different segments have different files. */
  lemma SegPathInjective(i: nat, j: nat)
    ensures SegPath(i) == SegPath(j) <==> i == j
  {
    NumericKeyOfSegment(i);
    NumericKeyOfSegment(j);
  }

  /** A segment's name has at least six digits, ends in `.m4s`, is not hidden
      and has no slash, so it is a file directly in the download directory. */
  lemma SegmentNameShape(idx: nat)
    ensures |SegmentName(idx)| >= Width + |M4s| && EndsWith(SegmentName(idx), M4s)
    ensures SegmentName(idx)[0] != '.'
    ensures forall i :: 0 <= i < |SegmentName(idx)| ==> SegmentName(idx)[i] != '/'
  {
    var d := Padded(idx);
    PaddedValue(idx);
    var n := SegmentName(idx);
    assert n == d + M4s;
    assert n[|n| - |M4s|..] == M4s;
    assert n[0] == d[0];
    forall i | 0 <= i < |n| ensures n[i] != '/' {
      if i < |d| { assert n[i] == d[i]; } else { assert n[i] == M4s[i - |d|]; }
    }
  }

  /** A segment's path contains no whitespace and no `#`, so it survives a
      line-oriented file list unchanged. */
  lemma SegPathPlain(idx: nat)
    ensures forall i :: 0 <= i < |SegPath(idx)| ==> !IsSpace(SegPath(idx)[i]) && SegPath(idx)[i] != '#'
  {
    var d := Padded(idx);
    PaddedValue(idx);
    var n := SegmentName(idx);
    assert n == d + M4s;
    var p := SegPath(idx);
    forall i | 0 <= i < |p| ensures !IsSpace(p[i]) && p[i] != '#' {
      if i < |DownloadsDir| {
        assert p[i] == DownloadsDir[i];
      } else if i < |DownloadsDir| + |d| {
        assert p[i] == d[i - |DownloadsDir|];
      } else {
        assert p[i] == M4s[i - |DownloadsDir| - |d|];
      }
    }
  }
}
