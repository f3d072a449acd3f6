/** `decrypt_string`: turning the inline `STAR-INIT-DATA` text into the bytes of
    `init.mp4` (filter, strict Base64 decoding, then zlib decompression with a
    fallback over window settings).

    zlib itself is not modelled: `inflate(wbits, data)` stands for
    `zlib.decompress(data, wbits=wbits)`, `None` for a raised `zlib.error`. */
module InitPayload {
  import opened Wrappers
  import opened Bytes
  import Base64

  /** `zlib.MAX_WBITS`. */
  const MaxWbits: int := 15

  /** `zlib.decompress(data)` without `wbits` uses `wbits=MAX_WBITS`. */
  const DefaultWbits: int := MaxWbits

  /** `zlib.MAX_WBITS | 16`: a gzip wrapper. */
  const GzipWbits: int := 31

  /** `-zlib.MAX_WBITS`: a raw DEFLATE stream without any wrapper. */
  const RawWbits: int := -MaxWbits

  type Inflate = (int, bytes) -> Option<bytes>

  /** The window settings of lines 100 and 103, in the order they are tried. */
  const AsWrittenModes: seq<int> := [DefaultWbits, MaxWbits, GzipWbits]

  /** The settings the fallback evidently means: zlib wrapper, raw stream, gzip wrapper. */
  const IntendedModes: seq<int> := [DefaultWbits, RawWbits, GzipWbits]

  /** The position of the first setting under which `inflate` succeeds. */
  function FirstMode(modes: seq<int>, data: bytes, inflate: Inflate): (r: Option<nat>)
    ensures r.Some? ==> r.value < |modes| && inflate(modes[r.value], data).Some?
    ensures r.Some? ==> forall j :: 0 <= j < r.value ==> inflate(modes[j], data).None?
    ensures r.None? ==> forall j :: 0 <= j < |modes| ==> inflate(modes[j], data).None?
  {
    if modes == [] then None
    else if inflate(modes[0], data).Some? then Some(0)
    else match FirstMode(modes[1..], data, inflate)
      case None => None
      case Some(k) => Some(k + 1)
  }

  /** Try the settings in order and return what the first successful one produces. */
  function TryModes(modes: seq<int>, data: bytes, inflate: Inflate): (r: Option<bytes>)
    ensures r.Some? ==> exists k :: (
      && 0 <= k < |modes|
      && inflate(modes[k], data) == r
      && forall j :: 0 <= j < k ==> inflate(modes[j], data).None?)
    ensures r.None? <==> forall k :: 0 <= k < |modes| ==> inflate(modes[k], data).None?
  {
    match FirstMode(modes, data, inflate)
    case None => None
    case Some(k) => inflate(modes[k], data)
  }

  /** Lines 99-109 as written. */
  function DecompressAsWritten(data: bytes, inflate: Inflate): Option<bytes>
  {
    TryModes(AsWrittenModes, data, inflate)
  }

  /** The fallback with the raw-DEFLATE setting it evidently intends. */
  function Decompress(data: bytes, inflate: Inflate): Option<bytes>
  {
    TryModes(IntendedModes, data, inflate)
  }

  /** Since the default setting already is `MAX_WBITS`, the first retry of the
      source repeats the call that just failed: only two framings are ever tried. */
  lemma AsWrittenRetryIsRedundant(data: bytes, inflate: Inflate)
    ensures DecompressAsWritten(data, inflate) == TryModes([DefaultWbits, GzipWbits], data, inflate)
  {
    var m := AsWrittenModes;
    assert m[1..][1..] == [GzipWbits];
    assert [DefaultWbits, GzipWbits][1..] == [GzipWbits];
  }

  /** A raw DEFLATE stream, which zlib rejects with a zlib or gzip header check,
      is never decoded by the source, although the intended fallback decodes it. */
  lemma AsWrittenRejectsRawDeflate(data: bytes, inflate: Inflate)
    requires inflate(DefaultWbits, data).None? && inflate(GzipWbits, data).None?
    requires inflate(RawWbits, data).Some?
    ensures DecompressAsWritten(data, inflate).None?
    ensures Decompress(data, inflate) == inflate(RawWbits, data)
  {
    assert AsWrittenModes[1] == DefaultWbits;
    assert IntendedModes[1] == RawWbits;
    assert FirstMode(IntendedModes[1..], data, inflate) == Some(0);
  }

  /** The intended fallback succeeds with every one of the three framings: the
      caller never chooses one, and the earliest setting that works wins. */
  lemma DecompressAnyFraming(data: bytes, inflate: Inflate, k: nat)
    requires k < |IntendedModes| && inflate(IntendedModes[k], data).Some?
    ensures Decompress(data, inflate).Some?
    ensures exists j :: 0 <= j <= k && Decompress(data, inflate) == inflate(IntendedModes[j], data)
  {
    var r := FirstMode(IntendedModes, data, inflate);
    assert r.Some? && r.value <= k;
  }

  /** The correction only adds a framing: whatever the source decompresses is
      still decompressed, to the same bytes unless the data is also a valid raw stream. */
  lemma DecompressExtendsAsWritten(data: bytes, inflate: Inflate)
    ensures DecompressAsWritten(data, inflate).Some? ==> Decompress(data, inflate).Some?
    ensures inflate(RawWbits, data).None? ==> Decompress(data, inflate) == DecompressAsWritten(data, inflate)
  {
    AsWrittenRetryIsRedundant(data, inflate);
    var two := [DefaultWbits, GzipWbits];
    assert two[1..] == [GzipWbits];
    assert IntendedModes[1..][1..] == [GzipWbits];
  }

  /** Why `decrypt_string` raises. */
  datatype DecryptError =
    | Base64Failed(cause: Base64.B64Error)
    | DecompressionFailed

  /** Filter the text, decode it strictly, then decompress it with the first of
      `modes` that works. */
  function DecryptWith(modes: seq<int>, encoded: string, inflate: Inflate): (r: Result<bytes, DecryptError>)
    ensures r.Err? && r.error.Base64Failed? <==> !Base64.WellPadded(Base64.Clean(encoded))
    ensures r.Ok? ==>
      var data := Base64.StrictDecode(Base64.Clean(encoded));
      data.Ok? && exists k :: (
        && 0 <= k < |modes|
        && inflate(modes[k], data.value) == Some(r.value)
        && forall j :: 0 <= j < k ==> inflate(modes[j], data.value).None?)
    ensures r == Err(DecompressionFailed) <==>
      var data := Base64.StrictDecode(Base64.Clean(encoded));
      data.Ok? && forall k :: 0 <= k < |modes| ==> inflate(modes[k], data.value).None?
  {
    var clean := Base64.Clean(encoded);
    Base64.DecodeOkIff(clean);
    match Base64.StrictDecode(clean)
    case Err(e) => Err(Base64Failed(e))
    case Ok(data) =>
      match FirstMode(modes, data, inflate)
      case None => Err(DecompressionFailed)
      case Some(k) =>
        assert inflate(modes[k], data) == Some(inflate(modes[k], data).value);
        Ok(inflate(modes[k], data).value)
  }

  /** `decrypt_string` as written: the fallback of lines 99-109. */
  function DecryptString(encoded: string, inflate: Inflate): Result<bytes, DecryptError>
  {
    DecryptWith(AsWrittenModes, encoded, inflate)
  }

  /** `decrypt_string` with the fallback it evidently intends. */
  function DecryptCorrected(encoded: string, inflate: Inflate): Result<bytes, DecryptError>
  {
    DecryptWith(IntendedModes, encoded, inflate)
  }

  /** The two agree with the decompression fallbacks they are built on. */
  lemma DecryptDecompresses(encoded: string, inflate: Inflate)
    requires Base64.StrictDecode(Base64.Clean(encoded)).Ok?
    ensures var data := Base64.StrictDecode(Base64.Clean(encoded)).value;
      (DecryptString(encoded, inflate).Ok? <==> DecompressAsWritten(data, inflate).Some?)
      && (DecryptString(encoded, inflate).Ok? ==> DecompressAsWritten(data, inflate) == Some(DecryptString(encoded, inflate).value))
      && (DecryptCorrected(encoded, inflate).Ok? <==> Decompress(data, inflate).Some?)
      && (DecryptCorrected(encoded, inflate).Ok? ==> Decompress(data, inflate) == Some(DecryptCorrected(encoded, inflate).value))
  {
  }

  /** End to end, the finding: the Base64 text of a raw DEFLATE stream makes
      `decrypt_string` raise "Decompression failed", while the intended fallback
      returns what the raw stream inflates to. */
  lemma DecryptRejectsRawPayload(b: bytes, inflate: Inflate)
    requires inflate(DefaultWbits, b).None? && inflate(GzipWbits, b).None?
    requires inflate(RawWbits, b).Some?
    ensures DecryptString(Base64.Encode(b), inflate) == Err(DecompressionFailed)
    ensures DecryptCorrected(Base64.Encode(b), inflate) == Ok(inflate(RawWbits, b).value)
  {
    Base64.CleanThenDecode(b);
    AsWrittenRejectsRawDeflate(b, inflate);
    DecryptDecompresses(Base64.Encode(b), inflate);
  }

  /** `AwA=` is the Base64 text of `03 00`, an empty raw DEFLATE stream (one
      final fixed-Huffman block holding only the end-of-block code). */
  lemma RawEmptyStreamText()
    ensures Base64.Encode([3, 0]) == "AwA="
  {
  }

  /** End to end: the Base64 text of a zlib stream, with foreign characters such
      as line breaks before it, after it and at any point inside it, yields what
      zlib decompresses it to. */
  lemma {:induction false} DecryptEncoded(pre: string, mid: string, post: string, i: nat, b: bytes, inflate: Inflate)
    requires Foreign(pre) && Foreign(mid) && Foreign(post)
    requires i <= |Base64.Encode(b)|
    requires inflate(DefaultWbits, b).Some?
    ensures var e := Base64.Encode(b);
      DecryptString(pre + e[..i] + mid + e[i..] + post, inflate) == Ok(inflate(DefaultWbits, b).value)
  {
    var e := Base64.Encode(b);
    NoisyEncoding(pre, mid, post, i, b);
    DecryptDecompresses(pre + e[..i] + mid + e[i..] + post, inflate);
    assert FirstMode(AsWrittenModes, b, inflate) == Some(0);
  }

  /** No character of `s` survives the filter. */
  predicate Foreign(s: string)
  {
    forall i :: 0 <= i < |s| ==> !Base64.Kept(s[i])
  }

  /** The filter removes foreign characters before, inside and after an
      encoding and nothing else, so the encoded bytes are decoded. */
  lemma {:induction false} NoisyEncoding(pre: string, mid: string, post: string, i: nat, b: bytes)
    requires Foreign(pre) && Foreign(mid) && Foreign(post)
    requires i <= |Base64.Encode(b)|
    ensures var e := Base64.Encode(b);
      Base64.StrictDecode(Base64.Clean(pre + e[..i] + mid + e[i..] + post)) == Ok(b)
  {
    var e := Base64.Encode(b);
    CleanNoise(pre, e[..i], mid, e[i..], post);
    assert e[..i] + e[i..] == e;
    Base64.CleanThenDecode(b);
  }

  /** Filtering `pre + a + mid + c + post`, with `pre`, `mid` and `post` foreign,
      keeps what `a + c` keeps. */
  lemma CleanNoise(pre: string, a: string, mid: string, c: string, post: string)
    requires Foreign(pre) && Foreign(mid) && Foreign(post)
    ensures Base64.Clean(pre + a + mid + c + post) == Base64.Clean(a + c)
  {
    var x1 := pre + a;
    var x2 := x1 + mid;
    var x3 := x2 + c;
    NoiseVanishes(pre);
    NoiseVanishes(mid);
    NoiseVanishes(post);
    Base64.CleanAppend(pre, a);
    Base64.CleanAppend(x1, mid);
    Base64.CleanAppend(x2, c);
    Base64.CleanAppend(x3, post);
    Base64.CleanAppend(a, c);
    assert Base64.Clean(x1) == Base64.Clean(a);
    assert Base64.Clean(x2) == Base64.Clean(a);
  }

  lemma {:induction false} NoiseVanishes(noise: string)
    requires Foreign(noise)
    ensures Base64.Clean(noise) == []
  {
    if noise != [] {
      NoiseVanishes(noise[1..]);
    }
  }
}
