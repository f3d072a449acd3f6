/** The character filter and the strict Base64 decoder that `decrypt_string`
    applies to the inline initialization data, with the RFC 4648 section 4
    encoder as the decoder's partner. */
module Base64 {
  import opened Wrappers
  import opened Bytes

  /** A character of the Base64 alphabet of RFC 4648 section 4 (Table 1). */
  predicate IsB64Char(c: char)
  {
    ('A' <= c <= 'Z') || ('a' <= c <= 'z') || ('0' <= c <= '9') || c == '+' || c == '/'
  }

  /** The characters the filter `[^A-Za-z0-9+/=]` leaves alone. */
  predicate Kept(c: char)
  {
    IsB64Char(c) || c == '='
  }

  /** `re.sub(r'[^A-Za-z0-9+/=]', '', s)`. */
  function Clean(s: string): (r: string)
    ensures |r| <= |s|
    ensures forall i :: 0 <= i < |r| ==> Kept(r[i])
  {
    if s == [] then [] else (if Kept(s[0]) then [s[0]] else []) + Clean(s[1..])
  }

  /** The filter works character by character: it distributes over
      concatenation, so it keeps exactly the alphabet characters, in order. */
  lemma {:induction false} CleanAppend(a: string, b: string)
    ensures Clean(a + b) == Clean(a) + Clean(b)
  {
    if a == [] {
      assert a + b == b;
    } else {
      assert (a + b)[0] == a[0];
      assert (a + b)[1..] == a[1..] + b;
      CleanAppend(a[1..], b);
    }
  }

  /** Text made only of alphabet characters and `=` passes the filter unchanged. */
  lemma {:induction false} CleanKeepsValid(s: string)
    requires forall i :: 0 <= i < |s| ==> Kept(s[i])
    ensures Clean(s) == s
  {
    if s != [] {
      CleanKeepsValid(s[1..]);
    }
  }

  /** The 6-bit value of an alphabet character (`table_a2b_base64`). */
  function Value(c: char): (v: int)
    requires IsB64Char(c)
    ensures 0 <= v < 64
  {
    if 'A' <= c <= 'Z' then c as int - 'A' as int
    else if 'a' <= c <= 'z' then c as int - 'a' as int + 26
    else if '0' <= c <= '9' then c as int - '0' as int + 52
    else if c == '+' then 62
    else 63
  }

  /** The alphabet character of a 6-bit value. */
  function Digit(v: int): (c: char)
    requires 0 <= v < 64
    ensures IsB64Char(c) && Value(c) == v
  {
    if v < 26 then ('A' as int + v) as char
    else if v < 52 then ('a' as int + v - 26) as char
    else if v < 62 then ('0' as int + v - 52) as char
    else if v == 62 then '+'
    else '/'
  }

  /** The errors `binascii.a2b_base64(..., strict_mode=True)` raises. */
  datatype B64Error =
    | LeadingPadding
    | ExcessPadding
    | ExcessDataAfterPadding
    | NonAlphabetChar
    | DiscontinuousPadding
    | InvalidLength
    | IncorrectPadding

  /** The invariant of the decoder's state: the bits left over from the
      previous character fit in what the next output byte has room for. */
  predicate StateOk(quad: nat, left: int)
  {
    quad < 4 && 0 <= left < 64 && (quad == 2 ==> left < 16) && (quad == 3 ==> left < 4)
  }

  /** The decoding loop of CPython's `binascii.a2b_base64` in strict mode, one
      character at a time: `quad` is `quad_pos`, `left` is `leftchar`, `pads`
      counts `=` seen after at least two data characters of a quad, and
      `padStarted` is `padding_started`. */
  function A2B(s: string, quad: nat, left: int, pads: nat, padStarted: bool, out: bytes): Result<bytes, B64Error>
    requires StateOk(quad, left)
    decreases |s|
  {
    if s == [] then
      if quad == 0 then Ok(out) else if quad == 1 then Err(InvalidLength) else Err(IncorrectPadding)
    else if s[0] == '=' then
      if quad == 0 then Err(ExcessPadding)
      else if quad >= 2 && quad + pads + 1 >= 4 then
        if |s| > 1 then Err(ExcessDataAfterPadding) else Ok(out)
      else A2B(s[1..], quad, left, if quad >= 2 then pads + 1 else pads, true, out)
    else if !IsB64Char(s[0]) then Err(NonAlphabetChar)
    else if padStarted then Err(DiscontinuousPadding)
    else
      var st := Step(quad, left, Value(s[0]), out);
      A2B(s[1..], st.0, st.1, 0, false, st.2)
  }

  /** `base64.b64decode(s, validate=True)` (CPython 3.11 and later). */
  function StrictDecode(s: string): Result<bytes, B64Error>
  {
    if |s| > 0 && s[0] == '=' then Err(LeadingPadding) else A2B(s, 0, 0, 0, false, [])
  }

  /** The four characters of a three-byte group (RFC 4648 section 4). */
  function Quad(x: byte, y: byte, z: byte): string
  {
    [Digit(x / 4), Digit((x % 4) * 16 + y / 16), Digit((y % 16) * 4 + z / 64), Digit(z % 64)]
  }

  /** The Base64 encoding of RFC 4648 section 4, with `=` padding: a final
      group of one or two bytes is padded with zero bits and then with `=`. */
  function Encode(b: bytes): string
  {
    if |b| == 0 then []
    else if |b| == 1 then Quad(b[0], 0, 0)[..2] + "=="
    else if |b| == 2 then Quad(b[0], b[1], 0)[..3] + "="
    else Quad(b[0], b[1], b[2]) + Encode(b[3..])
  }

  /** An encoding is made of alphabet characters and `=`, comes in whole
      quads and never starts with padding. */
  lemma {:induction false} EncodeShape(b: bytes)
    ensures forall i :: 0 <= i < |Encode(b)| ==> Kept(Encode(b)[i])
    ensures |Encode(b)| % 4 == 0
    ensures |Encode(b)| > 0 ==> Encode(b)[0] != '='
    decreases |b|
  {
    if |b| == 1 {
      QuadShape(b[0], 0, 0);
      assert |Encode(b)| == 4;
    } else if |b| == 2 {
      QuadShape(b[0], b[1], 0);
      assert |Encode(b)| == 4;
    } else if |b| > 2 {
      EncodeShape(b[3..]);
      var h := Quad(b[0], b[1], b[2]);
      QuadShape(b[0], b[1], b[2]);
      var t := Encode(b[3..]);
      assert Encode(b) == h + t;
      forall i | 0 <= i < |h + t| ensures Kept((h + t)[i]) {
        if i >= 4 { assert (h + t)[i] == t[i - 4]; } else { assert (h + t)[i] == h[i]; }
      }
      WholeQuads(|t|);
    }
  }

  lemma WholeQuads(k: nat)
    requires k % 4 == 0
    ensures (4 + k) % 4 == 0
  {
  }

  lemma QuadShape(x: byte, y: byte, z: byte)
    ensures |Quad(x, y, z)| == 4 && forall i :: 0 <= i < 4 ==> IsB64Char(Quad(x, y, z)[i])
  {
  }

  // ---------------------------------------------------------------------------
  // Round trip

  lemma GroupArithmetic(x: byte, y: byte, z: byte)
    ensures (x / 4) * 4 + ((x % 4) * 16 + y / 16) / 16 == x
    ensures (((x % 4) * 16 + y / 16) % 16) * 16 + ((y % 16) * 4 + z / 64) / 4 == y
    ensures (((y % 16) * 4 + z / 64) % 4) * 64 + z % 64 == z
  {
  }

  /** A quad of data characters produces the three bytes it encodes. */
  lemma DecodeQuad(x: byte, y: byte, z: byte, rest: string, out: bytes)
    ensures A2B(Quad(x, y, z) + rest, 0, 0, 0, false, out) == A2B(rest, 0, 0, 0, false, out + [x, y, z])
  {
    var q := Quad(x, y, z);
    var s := q + rest;
    assert s[0] == q[0] && s[1] == q[1];
    DecodeFirstTwo(x, y, s, out);
    assert s[2..][0] == q[2] && s[2..][1] == q[3] && s[2..][2..] == rest;
    DecodeLastTwo(x, y, z, s[2..], out);
  }

  /** The last two characters of a group produce its second and third bytes. */
  lemma DecodeLastTwo(x: byte, y: byte, z: byte, t: string, out: bytes)
    requires |t| >= 2 && t[0] == Digit((y % 16) * 4 + z / 64) && t[1] == Digit(z % 64)
    ensures A2B(t, 2, ((x % 4) * 16 + y / 16) % 16, 0, false, out + [x]) == A2B(t[2..], 0, 0, 0, false, out + [x, y, z])
  {
    var l2, v2 := ((x % 4) * 16 + y / 16) % 16, (y % 16) * 4 + z / 64;
    var l3, v3 := v2 % 4, z % 64;
    assert l2 * 16 + v2 / 4 == y && l3 * 64 + v3 == z by {
      GroupArithmetic(x, y, z);
    }
    assert Step(2, l2, v2, out + [x]) == (3, l3, out + [x] + [y]);
    assert t[1..][0] == t[1] && t[1..][1..] == t[2..];
    assert Step(3, l3, v3, out + [x] + [y]) == (0, 0, out + [x] + [y] + [z]);
    assert out + [x] + [y] + [z] == out + [x, y, z];
  }

  /** The encoding of a single trailing byte, `XY==`, decodes to that byte. */
  lemma DecodeTailOne(x: byte, out: bytes)
    ensures A2B(Encode([x]), 0, 0, 0, false, out) == Ok(out + [x])
  {
    GroupArithmetic(x, 0, 0);
    var s := Encode([x]);
    assert s == [Quad(x, 0, 0)[0], Quad(x, 0, 0)[1], '=', '='];
    DecodeFirstTwo(x, 0, s, out);
    assert s[2..] == "==" && s[2..][1..] == "=";
  }

  /** The encoding of two trailing bytes, `XYZ=`, decodes to those bytes. */
  lemma DecodeTailTwo(x: byte, y: byte, out: bytes)
    ensures A2B(Encode([x, y]), 0, 0, 0, false, out) == Ok(out + [x, y])
  {
    var q := Quad(x, y, 0);
    var s := Encode([x, y]);
    assert s == q[..3] + "=";
    assert s[0] == q[0] && s[1] == q[1];
    DecodeFirstTwo(x, y, s, out);
    var left := ((x % 4) * 16 + y / 16) % 16;
    var v := (y % 16) * 4;
    assert s[2..][0] == Digit(v) && s[2..][1..] == "=";
    assert left * 16 + v / 4 == y by {
      GroupArithmetic(x, y, 0);
      assert v / 64 == 0;
    }
    assert (out + [x]) + [y] == out + [x, y];
    assert Step(2, left, v, out + [x]) == (3, v % 4, out + [x, y]);
  }

  /** The first two characters of a group produce its first byte. */
  lemma DecodeFirstTwo(x: byte, y: byte, s: string, out: bytes)
    requires |s| >= 2 && s[0] == Digit(x / 4) && s[1] == Digit((x % 4) * 16 + y / 16)
    ensures A2B(s, 0, 0, 0, false, out) == A2B(s[2..], 2, ((x % 4) * 16 + y / 16) % 16, 0, false, out + [x])
  {
    GroupArithmetic(x, y, 0);
    assert s[1..][0] == s[1] && s[1..][1..] == s[2..];
  }

  lemma {:induction false} A2BEncode(b: bytes, out: bytes)
    ensures A2B(Encode(b), 0, 0, 0, false, out) == Ok(out + b)
    decreases |b|
  {
    if |b| == 0 {
      assert out + b == out;
    } else if |b| == 1 {
      assert b == [b[0]];
      DecodeTailOne(b[0], out);
    } else if |b| == 2 {
      assert b == [b[0], b[1]];
      DecodeTailTwo(b[0], b[1], out);
    } else {
      DecodeQuad(b[0], b[1], b[2], Encode(b[3..]), out);
      A2BEncode(b[3..], out + [b[0], b[1], b[2]]);
      Regroup(out, b);
    }
  }

  lemma Regroup(out: bytes, b: bytes)
    requires |b| >= 3
    ensures out + [b[0], b[1], b[2]] + b[3..] == out + b
  {
    assert b == [b[0], b[1], b[2]] + b[3..];
  }

  /** Strict decoding undoes the encoding, for every byte string. */
  lemma RoundTrip(b: bytes)
    ensures StrictDecode(Encode(b)) == Ok(b)
  {
    EncodeShape(b);
    A2BEncode(b, []);
    assert [] + b == b;
  }

  /** The filter leaves an encoding untouched, so `decrypt_string`'s first two
      steps return exactly the encoded bytes. */
  lemma CleanThenDecode(b: bytes)
    ensures StrictDecode(Clean(Encode(b))) == Ok(b)
  {
    EncodeShape(b);
    CleanKeepsValid(Encode(b));
    RoundTrip(b);
  }

  // ---------------------------------------------------------------------------
  // Which inputs decode

  /** The length of the longest prefix of alphabet characters. */
  function DataLen(s: string): (n: nat)
    ensures n <= |s|
    ensures forall i :: 0 <= i < n ==> IsB64Char(s[i])
    ensures n < |s| ==> !IsB64Char(s[n])
  {
    if s == [] || !IsB64Char(s[0]) then 0 else 1 + DataLen(s[1..])
  }

  /** Canonically padded Base64 text (RFC 4648 section 4): data characters
      followed by no padding when they fill whole quads, by `==` when two are
      left over and by `=` when three are. */
  predicate WellPadded(s: string)
  {
    var n := DataLen(s);
    (n == |s| && n % 4 == 0) || (s[n..] == "==" && n % 4 == 2) || (s[n..] == "=" && n % 4 == 3)
  }

  /** The byte count after `k` data characters from the start of a quad. */
  function Produced(k: nat): nat
  {
    (k * 3) / 4
  }

  /** One more data character at quad position `q` produces a byte unless it starts a quad. */
  lemma ProducedStep(q: nat, m: nat)
    requires q < 4
    ensures Produced(q + 1 + m) - Produced(q) == (if q == 0 then 0 else 1) + Produced((q + 1) % 4 + m) - Produced((q + 1) % 4)
    ensures ((q + 1) % 4 + m) % 4 == (q + 1 + m) % 4
  {
    if q == 3 {
      assert (4 + m) * 3 == m * 3 + 12;
      assert (4 + m) % 4 == m % 4;
    }
  }

  /** The decoder's state after one more data character of value `v`. */
  function Step(quad: nat, left: int, v: int, out: bytes): (st: (nat, int, bytes))
    requires StateOk(quad, left) && 0 <= v < 64
    ensures StateOk(st.0, st.1) && st.0 == (quad + 1) % 4
    ensures |st.2| == |out| + (if quad == 0 then 0 else 1)
  {
    if quad == 0 then (1, v, out)
    else if quad == 1 then (2, v % 16, out + [left * 4 + v / 16])
    else if quad == 2 then (3, v % 4, out + [left * 16 + v / 4])
    else (0, 0, out + [left * 64 + v])
  }

  /** The state after a run of data characters. */
  function Feed(d: string, quad: nat, left: int, out: bytes): (st: (nat, int, bytes))
    requires StateOk(quad, left)
    requires forall i :: 0 <= i < |d| ==> IsB64Char(d[i])
    ensures StateOk(st.0, st.1)
    ensures st.0 == (quad + |d|) % 4
    ensures |st.2| == |out| + Produced(quad + |d|) - Produced(quad)
    decreases |d|
  {
    if d == [] then (quad, left, out)
    else
      var st := Step(quad, left, Value(d[0]), out);
      ProducedStep(quad, |d| - 1);
      Feed(d[1..], st.0, st.1, st.2)
  }

  lemma {:induction false} A2BData(d: string, p: string, quad: nat, left: int, out: bytes)
    requires StateOk(quad, left)
    requires forall i :: 0 <= i < |d| ==> IsB64Char(d[i])
    ensures var st := Feed(d, quad, left, out);
      A2B(d + p, quad, left, 0, false, out) == A2B(p, st.0, st.1, 0, false, st.2)
    decreases |d|
  {
    if d != [] {
      assert (d + p)[0] == d[0];
      assert (d + p)[1..] == d[1..] + p;
      var st := Step(quad, left, Value(d[0]), out);
      assert A2B(d + p, quad, left, 0, false, out) == A2B(d[1..] + p, st.0, st.1, 0, false, st.2);
      A2BData(d[1..], p, st.0, st.1, st.2);
    } else {
      assert d + p == p;
    }
  }

  /** Once a `=` has been seen in the second position of a quad, no input can succeed. */
  lemma {:induction false} PadAfterOne(p: string, left: int, out: bytes)
    requires StateOk(1, left)
    ensures A2B(p, 1, left, 0, true, out).Err?
    decreases |p|
  {
    if p != [] && p[0] == '=' {
      PadAfterOne(p[1..], left, out);
    }
  }

  /** Strict decoding succeeds exactly on canonically padded text, and then
      returns every byte its data characters encode: it never truncates. */
  lemma DecodeOkIff(s: string)
    ensures StrictDecode(s).Ok? <==> WellPadded(s)
    ensures StrictDecode(s).Ok? ==> |StrictDecode(s).value| == Produced(DataLen(s))
  {
    var n := DataLen(s);
    var d, p := s[..n], s[n..];
    assert s == d + p;
    A2BData(d, p, 0, 0, []);
    var st := Feed(d, 0, 0, []);
    assert A2B(s, 0, 0, 0, false, []) == A2B(p, st.0, st.1, 0, false, st.2);
    if n == 0 && |s| > 0 && s[0] == '=' {
      assert !WellPadded(s);
    } else if p == [] {
    } else if p[0] != '=' {
      assert !IsB64Char(p[0]);
    } else if st.0 == 1 {
      PadAfterOne(p[1..], st.1, st.2);
      if p == "=" || p == "==" { assert !WellPadded(s); }
    } else if st.0 == 2 {
      var q := p[1..];
      if |q| > 0 && q[0] == '=' {
        if |q| > 1 { assert p != "=="; }
      }
    }
  }

  /** Inputs of bad length or padding are rejected, never decoded in part. */
  lemma BadPaddingRejected(s: string)
    requires !WellPadded(s)
    ensures StrictDecode(s).Err?
  {
    DecodeOkIff(s);
  }
}
