/** The parsing half of `download_m3u8`: the base URL of the playlist, the
    inline initialization data, and the list of segment URLs.

    The regular expressions of the source are modelled by functions that make
    the same choices as Python's backtracking engine (leftmost match, lazy or
    greedy repetition, `.` excluding a newline), and each is paired with a
    declarative predicate saying what a match of the pattern is. */
module Manifest {
  import opened Wrappers
  import opened PyText

  // ---------------------------------------------------------------------------
  // Base URL (lines 132-136)

  /** The result of `urlparse(m3u8_url)`, as far as the base URL uses it. */
  datatype UrlParts = UrlParts(scheme: string, netloc: string, path: string)

  predicate AllSlashes(s: string)
  {
    forall i :: 0 <= i < |s| ==> s[i] == '/'
  }

  /** `s.rstrip('/')`. */
  function RStripSlashes(s: string): (r: string)
    ensures |r| <= |s| && r == s[..|r|]
    ensures r == [] || r[|r| - 1] != '/'
    ensures forall i :: |r| <= i < |s| ==> s[i] == '/'
  {
    if s == [] || s[|s| - 1] != '/' then s else RStripSlashes(s[..|s| - 1])
  }

  /** `posixpath.dirname`: everything before the last slash, with trailing
      slashes removed unless the head consists of slashes only. */
  function Dirname(p: string): (r: string)
    ensures |r| <= |p| && r == p[..|r|]
    ensures r == [] || r[|r| - 1] != '/' || AllSlashes(r)
  {
    var head := p[..AfterLastSlash(p)];
    if head != [] && !AllSlashes(head) then RStripSlashes(head) else head
  }

  /** `f"{scheme}://{netloc}{dirname(path)}/"`, then the check that it ends in a slash. */
  function BaseUrl(u: UrlParts): (r: string)
    ensures EndsWith(r, "/")
    ensures StartsWith(r, u.scheme + "://" + u.netloc)
  {
    var b := u.scheme + "://" + u.netloc + Dirname(u.path) + "/";
    assert b[..|u.scheme + "://" + u.netloc|] == u.scheme + "://" + u.netloc;
    if EndsWith(b, "/") then b else b + "/"
  }

  /** For a path `dir/file`, the base URL is the directory of the playlist. */
  lemma BaseUrlIsDirectory(scheme: string, netloc: string, dir: string, file: string)
    requires dir != [] && dir[|dir| - 1] != '/'
    requires forall i :: 0 <= i < |file| ==> file[i] != '/'
    ensures BaseUrl(UrlParts(scheme, netloc, dir + "/" + file)) == scheme + "://" + netloc + dir + "/"
  {
    var p := dir + "/" + file;
    assert p[|dir|] == '/';
    var i := AfterLastSlash(p);
    assert i == |dir| + 1;
    var head := p[..i];
    assert head == dir + "/";
    assert head[|dir| - 1] == dir[|dir| - 1];
    assert !AllSlashes(head);
    var r := RStripSlashes(head);
    assert r == dir;
  }

  /** A playlist at the root of the host gets the base `scheme://netloc//`:
      `dirname("/x")` is `"/"` and the source appends another slash. */
  lemma BaseUrlAtRoot(scheme: string, netloc: string, file: string)
    requires forall i :: 0 <= i < |file| ==> file[i] != '/'
    ensures BaseUrl(UrlParts(scheme, netloc, "/" + file)) == scheme + "://" + netloc + "//"
  {
    var p := "/" + file;
    assert p[0] == '/';
    assert AfterLastSlash(p) == 1;
    assert p[..1] == "/";
  }

  // ---------------------------------------------------------------------------
  // Inline initialization data (lines 147-158)

  const MapTag: string := "#EXT-X-MAP:"
  const InitAttr: string := "STAR-INIT-DATA=\""
  const LegacyTag: string := "#EXT-STAR-INIT-DATA:"

  /** What `#EXT-X-MAP:.*?STAR-INIT-DATA="(.*?)"` matches when the match starts
      at `p`, the attribute name at `q` and the closing quote is at `e`: all on
      one line, and the captured text `s[q + |InitAttr|..e]` contains no quote. */
  ghost predicate IsMapMatch(s: string, p: nat, q: nat, e: nat)
  {
    && StartsAt(s, p, MapTag) && p + |MapTag| <= q
    && StartsAt(s, q, InitAttr) && q + |InitAttr| <= e < |s| && s[e] == '"'
    && (forall j :: p <= j < e ==> s[j] != '\n')
    && (forall j :: q + |InitAttr| <= j < e ==> s[j] != '"')
  }

  /** The lazy `(.*?)"`: the first quote at or after `k`, provided no newline comes first. */
  function CloseQuote(s: string, k: nat): (r: Option<nat>)
    ensures r.Some? ==> k <= r.value < |s| && s[r.value] == '"'
    decreases |s| - k
  {
    if k >= |s| || s[k] == '\n' then None else if s[k] == '"' then Some(k) else CloseQuote(s, k + 1)
  }

  /** No quote and no newline comes before the closing quote. */
  lemma {:induction false} CloseQuoteIsFirst(s: string, k: nat)
    ensures CloseQuote(s, k).Some? ==> forall j :: k <= j < CloseQuote(s, k).value ==> s[j] != '"' && s[j] != '\n'
    decreases |s| - k
  {
    if k < |s| && s[k] != '\n' && s[k] != '"' {
      CloseQuoteIsFirst(s, k + 1);
    }
  }

  lemma {:induction false} CloseQuoteFinds(s: string, k: nat, e: nat)
    requires k <= e < |s| && s[e] == '"'
    requires forall j :: k <= j < e ==> s[j] != '"' && s[j] != '\n'
    ensures CloseQuote(s, k) == Some(e)
    decreases e - k
  {
    if k < e {
      CloseQuoteFinds(s, k + 1, e);
    }
  }

  /** The lazy `.*?STAR-INIT-DATA="(.*?)"` from position `j`: the first
      attribute on the rest of the line whose value is closed on that line. */
  function AttrFrom(s: string, j: nat): (r: Option<(nat, nat)>)
    ensures r.Some? ==> j <= r.value.0 && StartsAt(s, r.value.0, InitAttr)
    ensures r.Some? ==> CloseQuote(s, r.value.0 + |InitAttr|) == Some(r.value.1)
    decreases |s| - j
  {
    if StartsAt(s, j, InitAttr) && CloseQuote(s, j + |InitAttr|).Some? then
      Some((j, CloseQuote(s, j + |InitAttr|).value))
    else if j < |s| && s[j] != '\n' then AttrFrom(s, j + 1)
    else None
  }

  /** The attribute found is on the line of `j`, and no earlier position on it
      starts an attribute whose value is closed on that line. */
  lemma {:induction false} AttrFromIsFirst(s: string, j: nat)
    ensures AttrFrom(s, j).Some? ==> forall i :: j <= i < AttrFrom(s, j).value.0 ==> s[i] != '\n'
    ensures AttrFrom(s, j).Some? ==> forall i :: j <= i < AttrFrom(s, j).value.0 ==>
      !(StartsAt(s, i, InitAttr) && CloseQuote(s, i + |InitAttr|).Some?)
    decreases |s| - j
  {
    if !(StartsAt(s, j, InitAttr) && CloseQuote(s, j + |InitAttr|).Some?) && j < |s| && s[j] != '\n' {
      AttrFromIsFirst(s, j + 1);
    }
  }

  lemma {:induction false} AttrFromFinds(s: string, j: nat, q: nat, e: nat)
    requires j <= q && StartsAt(s, q, InitAttr) && CloseQuote(s, q + |InitAttr|) == Some(e)
    requires forall i :: j <= i < q ==> s[i] != '\n'
    ensures AttrFrom(s, j).Some? && AttrFrom(s, j).value.0 <= q
    decreases q - j
  {
    if j < q && !(StartsAt(s, j, InitAttr) && CloseQuote(s, j + |InitAttr|).Some?) {
      AttrFromFinds(s, j + 1, q, e);
    }
  }

  function MapMatchAt(s: string, p: nat): Option<(nat, nat)>
  {
    if StartsAt(s, p, MapTag) then AttrFrom(s, p + |MapTag|) else None
  }

  /** `re.search` for the `#EXT-X-MAP:` pattern: the leftmost position where it matches. */
  function SearchMap(s: string, p: nat): (r: Option<(nat, nat, nat)>)
    ensures r.Some? ==> p <= r.value.0 && MapMatchAt(s, r.value.0) == Some((r.value.1, r.value.2))
    decreases |s| - p
  {
    if p >= |s| then None
    else match MapMatchAt(s, p)
      case Some((q, e)) => Some((p, q, e))
      case None => SearchMap(s, p + 1)
  }

  /** The search stops at the first position from `p` where `MapMatchAt` succeeds. */
  lemma {:induction false} SearchMapSkips(s: string, p: nat)
    ensures SearchMap(s, p).Some? ==> forall i :: p <= i < SearchMap(s, p).value.0 ==> MapMatchAt(s, i).None?
    decreases |s| - p
  {
    if p < |s| && MapMatchAt(s, p).None? {
      SearchMapSkips(s, p + 1);
    }
  }

  /** When the search finds nothing, `MapMatchAt` succeeds nowhere from `p` on. */
  lemma {:induction false} SearchMapExhausts(s: string, p: nat)
    ensures SearchMap(s, p).None? ==> forall i :: p <= i ==> MapMatchAt(s, i).None?
    decreases |s| - p
  {
    if p >= |s| {
      forall i | p <= i ensures MapMatchAt(s, i).None? {
        assert !StartsAt(s, i, MapTag);
      }
    } else if MapMatchAt(s, p).None? {
      SearchMapExhausts(s, p + 1);
    }
  }

  /** `MapMatchAt` finds a match wherever the pattern matches, as early as the lazy repetition allows. */
  lemma MapMatchAtComplete(s: string, p: nat, q: nat, e: nat)
    requires IsMapMatch(s, p, q, e)
    ensures MapMatchAt(s, p).Some? && MapMatchAt(s, p).value.0 <= q
  {
    CloseQuoteFinds(s, q + |InitAttr|, e);
    AttrFromFinds(s, p + |MapTag|, q, e);
  }

  /** What `MapMatchAt` finds is a match of the pattern. */
  lemma MapMatchAtSound(s: string, p: nat)
    requires MapMatchAt(s, p).Some?
    ensures IsMapMatch(s, p, MapMatchAt(s, p).value.0, MapMatchAt(s, p).value.1)
  {
    var (q, e) := MapMatchAt(s, p).value;
    AttrFromIsFirst(s, p + |MapTag|);
    CloseQuoteIsFirst(s, q + |InitAttr|);
    forall j | p <= j < e ensures s[j] != '\n' {
      if j < p + |MapTag| {
        assert s[p..p + |MapTag|][j - p] == s[j];
      } else if q <= j < q + |InitAttr| {
        assert s[q..q + |InitAttr|][j - q] == s[j];
      }
    }
  }

  /** The `#EXT-X-MAP:` search returns precisely the leftmost match, with the
      first attribute the lazy `.*?` reaches. */
  lemma SearchMapIsLeftmostMatch(s: string)
    ensures SearchMap(s, 0).Some? <==> exists p: nat, q: nat, e: nat :: IsMapMatch(s, p, q, e)
    ensures SearchMap(s, 0).Some? ==>
      var (p, q, e) := SearchMap(s, 0).value;
      && IsMapMatch(s, p, q, e)
      && (forall p': nat, q': nat, e': nat :: p' < p ==> !IsMapMatch(s, p', q', e'))
      && (forall q': nat, e': nat :: q' < q ==> !IsMapMatch(s, p, q', e'))
  {
    if SearchMap(s, 0).Some? {
      LeftmostMatchFound(s);
    } else {
      NoMatchWhenNotFound(s);
    }
  }

  lemma LeftmostMatchFound(s: string)
    requires SearchMap(s, 0).Some?
    ensures var (p, q, e) := SearchMap(s, 0).value;
      && IsMapMatch(s, p, q, e)
      && (forall p': nat, q': nat, e': nat :: p' < p ==> !IsMapMatch(s, p', q', e'))
      && (forall q': nat, e': nat :: q' < q ==> !IsMapMatch(s, p, q', e'))
  {
    var (p, q, e) := SearchMap(s, 0).value;
    SearchMapSkips(s, 0);
    MapMatchAtSound(s, p);
    forall p': nat, q': nat, e': nat | p' < p ensures !IsMapMatch(s, p', q', e') {
      if IsMapMatch(s, p', q', e') {
        MapMatchAtComplete(s, p', q', e');
      }
    }
    forall q': nat, e': nat | q' < q ensures !IsMapMatch(s, p, q', e') {
      if IsMapMatch(s, p, q', e') {
        MapMatchAtComplete(s, p, q', e');
      }
    }
  }

  lemma NoMatchWhenNotFound(s: string)
    requires SearchMap(s, 0).None?
    ensures forall p: nat, q: nat, e: nat :: !IsMapMatch(s, p, q, e)
  {
    SearchMapExhausts(s, 0);
    forall p: nat, q: nat, e: nat ensures !IsMapMatch(s, p, q, e) {
      if IsMapMatch(s, p, q, e) {
        MapMatchAtComplete(s, p, q, e);
      }
    }
  }

  /** The first position at or after `i` where `lit` occurs. */
  function FindLiteral(s: string, lit: string, i: nat): (r: Option<nat>)
    ensures r.Some? ==> i <= r.value && StartsAt(s, r.value, lit)
    ensures r.Some? ==> forall j :: i <= j < r.value ==> !StartsAt(s, j, lit)
    ensures r.None? ==> forall j :: i <= j ==> !StartsAt(s, j, lit)
    decreases |s| - i
  {
    if i + |lit| > |s| then None
    else if StartsAt(s, i, lit) then Some(i)
    else FindLiteral(s, lit, i + 1)
  }

  /** The end of the line that contains position `k` (the greedy `.*`). */
  function LineEnd(s: string, k: nat): (r: nat)
    requires k <= |s|
    ensures k <= r <= |s| && (r < |s| ==> s[r] == '\n')
    ensures forall j :: k <= j < r ==> s[j] != '\n'
    decreases |s| - k
  {
    if k == |s| || s[k] == '\n' then k else LineEnd(s, k + 1)
  }

  /** `re.search(r'#EXT-STAR-INIT-DATA:(.*)', text).group(1)`. */
  function LegacyValue(s: string): (r: Option<string>)
    ensures r.Some? <==> exists p :: StartsAt(s, p, LegacyTag)
    ensures r.Some? ==> forall i :: 0 <= i < |r.value| ==> r.value[i] != '\n'
  {
    match FindLiteral(s, LegacyTag, 0)
    case None => None
    case Some(p) => Some(s[p + |LegacyTag|..LineEnd(s, p + |LegacyTag|)])
  }

  /** Lines 147-158: the `#EXT-X-MAP:` attribute when there is one, else the
      stripped remainder of the legacy line, else nothing. */
  function SelectInitData(s: string): Option<string>
  {
    match SearchMap(s, 0)
    case Some((p, q, e)) => Some(s[q + |InitAttr|..e])
    case None =>
      match LegacyValue(s)
      case Some(v) => Some(Strip(v))
      case None => None
  }

  /** A `STAR-INIT-DATA` attribute on an `#EXT-X-MAP:` line is used, whatever legacy lines say. */
  lemma InitDataPrefersMap(s: string, p: nat, q: nat, e: nat)
    requires IsMapMatch(s, p, q, e)
    requires forall p': nat, q': nat, e': nat :: p' < p ==> !IsMapMatch(s, p', q', e')
    requires forall q': nat, e': nat :: q' < q ==> !IsMapMatch(s, p, q', e')
    ensures SelectInitData(s) == Some(s[q + |InitAttr|..e])
  {
    FoundNoLater(s, p, q, e);
    var (p0, q0, e0) := SearchMap(s, 0).value;
    assert p0 == p && q0 == q;
    assert e0 == e by {
      CloseQuoteFinds(s, q + |InitAttr|, e);
    }
  }

  /** Any match bounds what the search finds: a match that starts no later,
      and on the same start an attribute no later. */
  lemma FoundNoLater(s: string, p: nat, q: nat, e: nat)
    requires IsMapMatch(s, p, q, e)
    ensures SearchMap(s, 0).Some?
    ensures var (p0, q0, e0) := SearchMap(s, 0).value;
      p0 <= p && IsMapMatch(s, p0, q0, e0) && (p0 == p ==> q0 <= q)
  {
    MapMatchAtComplete(s, p, q, e);
    SearchMapExhausts(s, 0);
    var p0 := SearchMap(s, 0).value.0;
    SearchMapSkips(s, 0);
    MapMatchAtSound(s, p0);
  }

  /** Without such an attribute, the first legacy line decides, stripped of whitespace. */
  lemma InitDataFallsBackToLegacy(s: string, p: nat)
    requires forall p': nat, q': nat, e': nat :: !IsMapMatch(s, p', q', e')
    requires StartsAt(s, p, LegacyTag) && forall j: nat :: j < p ==> !StartsAt(s, j, LegacyTag)
    ensures SelectInitData(s) == Some(Strip(s[p + |LegacyTag|..LineEnd(s, p + |LegacyTag|)]))
  {
    assert SearchMap(s, 0).None? by {
      if SearchMap(s, 0).Some? {
        MapMatchAtSound(s, SearchMap(s, 0).value.0);
      }
    }
  }

  /** Without either, there is no initialization data, and conversely. */
  lemma InitDataMissing(s: string)
    ensures SelectInitData(s).None? <==>
      (forall p: nat, q: nat, e: nat :: !IsMapMatch(s, p, q, e)) && (forall p: nat :: !StartsAt(s, p, LegacyTag))
  {
    SearchMapIsLeftmostMatch(s);
  }

  // ---------------------------------------------------------------------------
  // Segment list (lines 161-173)

  const ExtinfTag: string := "#EXTINF:"
  const M4sSuffix: string := ".m4s"

  /** `s[..e]` ends with `.m4s`. */
  predicate EndsM4sAt(s: string, e: nat)
  {
    |M4sSuffix| <= e <= |s| && s[e - |M4sSuffix|..e] == M4sSuffix
  }

  predicate IsDurationChar(c: char)
  {
    IsDigit(c) || c == '.'
  }

  /** `[^\s#]`. */
  predicate IsTokenChar(c: char)
  {
    !IsSpace(c) && c != '#'
  }

  /** What `#EXTINF:[\d\.]+,\s*\n([^\s#]+\.m4s)` matches at `p`, with the comma
      at `c`, the newline at `nl` and the captured name `s[nl + 1..e]`. */
  ghost predicate IsExtinfMatch(s: string, p: nat, c: nat, nl: nat, e: nat)
  {
    && StartsAt(s, p, ExtinfTag) && p + |ExtinfTag| < c < |s| && s[c] == ','
    && (forall j :: p + |ExtinfTag| <= j < c ==> IsDurationChar(s[j]))
    && c < nl < |s| && s[nl] == '\n'
    && (forall j :: c < j < nl ==> IsSpace(s[j]))
    && nl + 1 + |M4sSuffix| < e <= |s| && EndsM4sAt(s, e)
    && (forall j :: nl < j < e - |M4sSuffix| ==> IsTokenChar(s[j]))
  }

  function DurationEnd(s: string, k: nat): (r: nat)
    requires k <= |s|
    ensures k <= r <= |s| && (r < |s| ==> !IsDurationChar(s[r]))
    ensures forall j :: k <= j < r ==> IsDurationChar(s[j])
    decreases |s| - k
  {
    if k == |s| || !IsDurationChar(s[k]) then k else DurationEnd(s, k + 1)
  }

  function SpaceEnd(s: string, k: nat): (r: nat)
    requires k <= |s|
    ensures k <= r <= |s| && (r < |s| ==> !IsSpace(s[r]))
    ensures forall j :: k <= j < r ==> IsSpace(s[j])
    decreases |s| - k
  {
    if k == |s| || !IsSpace(s[k]) then k else SpaceEnd(s, k + 1)
  }

  function TokenEnd(s: string, k: nat): (r: nat)
    requires k <= |s|
    ensures k <= r <= |s| && (r < |s| ==> !IsTokenChar(s[r]))
    ensures forall j :: k <= j < r ==> IsTokenChar(s[j])
    decreases |s| - k
  {
    if k == |s| || !IsTokenChar(s[k]) then k else TokenEnd(s, k + 1)
  }

  /** The last newline in `s[a..b]`: where the greedy `\s*` gives back just enough for `\n`. */
  function LastNewline(s: string, a: nat, b: nat): (r: Option<nat>)
    requires a <= b <= |s|
    ensures r.Some? ==> a <= r.value < b && s[r.value] == '\n'
    ensures r.Some? ==> forall j :: r.value < j < b ==> s[j] != '\n'
    ensures r.None? ==> forall j :: a <= j < b ==> s[j] != '\n'
    decreases b - a
  {
    if a == b then None else if s[b - 1] == '\n' then Some(b - 1) else LastNewline(s, a, b - 1)
  }

  /** The largest `e <= b` with `s[a..e]` at least one character followed by
      `.m4s`: where the greedy `[^\s#]+` gives back just enough for `\.m4s`. */
  function LastM4sEnd(s: string, a: nat, b: nat): (r: Option<nat>)
    requires a <= b <= |s|
    ensures r.Some? ==> a + 1 + |M4sSuffix| <= r.value <= b && EndsM4sAt(s, r.value)
    ensures r.Some? ==> forall e: nat :: r.value < e <= b ==> !EndsM4sAt(s, e)
    ensures r.None? ==> forall e: nat :: a + 1 + |M4sSuffix| <= e <= b ==> !EndsM4sAt(s, e)
    decreases b - a
  {
    if b < a + 1 + |M4sSuffix| then None
    else if EndsM4sAt(s, b) then Some(b)
    else LastM4sEnd(s, a, b - 1)
  }

  /** Where the pieces of one `#EXTINF` match are: comma, newline, end of the name. */
  datatype ExtinfMatch = ExtinfMatch(comma: nat, newline: nat, end: nat)

  /** The `#EXTINF` pattern tried at `p`, with the backtracking choices of Python's engine. */
  function ExtinfAt(s: string, p: nat): (r: Option<ExtinfMatch>)
    ensures r.Some? ==> p < r.value.newline < r.value.end <= |s|
    ensures r.Some? ==> IsExtinfMatch(s, p, r.value.comma, r.value.newline, r.value.end)
  {
    if !StartsAt(s, p, ExtinfTag) then None
    else
      var c := DurationEnd(s, p + |ExtinfTag|);
      if c == p + |ExtinfTag| || c == |s| || s[c] != ',' then None
      else
        var w := SpaceEnd(s, c + 1);
        match LastNewline(s, c + 1, w)
        case None => None
        case Some(nl) =>
          var b := TokenEnd(s, nl + 1);
          match LastM4sEnd(s, nl + 1, b)
          case None => None
          case Some(e) => Some(ExtinfMatch(c, nl, e))
  }

  /** Wherever the pattern matches at `p`, `ExtinfAt` finds that newline and the longest name. */
  lemma ExtinfAtComplete(s: string, p: nat, c: nat, nl: nat, e: nat)
    requires IsExtinfMatch(s, p, c, nl, e)
    ensures ExtinfAt(s, p).Some?
    ensures ExtinfAt(s, p).value.comma == c && ExtinfAt(s, p).value.newline == nl
    ensures ExtinfAt(s, p).value.end >= e
  {
    var d := DurationEnd(s, p + |ExtinfTag|);
    assert d == c;
    var w := SpaceEnd(s, c + 1);
    assert IsSpace(s[nl]);
    assert w > nl;
    var ln := LastNewline(s, c + 1, w);
    assert ln.Some? && ln.value >= nl;
    assert IsTokenChar(s[nl + 1]);
    assert ln.value == nl;
    var b := TokenEnd(s, nl + 1);
    forall j | e - |M4sSuffix| <= j < e ensures IsTokenChar(s[j]) {
      assert s[e - |M4sSuffix|..e][j - (e - |M4sSuffix|)] == s[j];
    }
    assert b >= e;
  }

  /** The captured segment name of a match. */
  function Token(s: string, m: ExtinfMatch): string
    requires m.newline < m.end <= |s|
  {
    s[m.newline + 1..m.end]
  }

  /** Inside a match only its first character is a `#`, so no match starts within another. */
  lemma ExtinfHasNoInnerHash(s: string, p: nat)
    requires ExtinfAt(s, p).Some?
    ensures forall j :: p < j < ExtinfAt(s, p).value.end ==> s[j] != '#'
  {
    var m := ExtinfAt(s, p).value;
    MatchHasNoInnerHash(s, p, m.comma, m.newline, m.end);
  }

  lemma MatchHasNoInnerHash(s: string, p: nat, c: nat, nl: nat, e: nat)
    requires IsExtinfMatch(s, p, c, nl, e)
    ensures forall j :: p < j < e ==> s[j] != '#'
  {
    SuffixIsPlain(s, e);
    forall j | p < j < e ensures s[j] != '#' {
      if j < p + |ExtinfTag| {
        assert s[p..p + |ExtinfTag|][j - p] == s[j];
      }
    }
  }

  /** `re.finditer`: matches from left to right, each search resuming where the last match ended. */
  function Scan(s: string, p: nat): seq<string>
    decreases |s| - p
  {
    if p >= |s| then []
    else match ExtinfAt(s, p)
      case Some(m) => [Token(s, m)] + Scan(s, m.end)
      case None => Scan(s, p + 1)
  }

  /** The reference: the names of the matches at every position from `p` on, in order. */
  function AllMatches(s: string, p: nat): seq<string>
    decreases |s| - p
  {
    if p >= |s| then []
    else (match ExtinfAt(s, p) case Some(m) => [Token(s, m)] case None => []) + AllMatches(s, p + 1)
  }

  lemma {:induction false} SkipHashFree(s: string, i: nat, j: nat)
    requires i <= j <= |s|
    requires forall k :: i <= k < j ==> s[k] != '#'
    ensures AllMatches(s, i) == AllMatches(s, j)
    decreases j - i
  {
    if i < j {
      if i + |ExtinfTag| <= |s| {
        assert s[i..i + |ExtinfTag|][0] == s[i];
      }
      SkipHashFree(s, i + 1, j);
    }
  }

  /** The scan misses no match: its list is the names of the matches at all positions, in manifest order. */
  lemma {:induction false} ScanFindsEveryMatch(s: string, p: nat)
    ensures Scan(s, p) == AllMatches(s, p)
    decreases |s| - p
  {
    if p < |s| {
      match ExtinfAt(s, p)
      case Some(m) =>
        ExtinfHasNoInnerHash(s, p);
        SkipHashFree(s, p + 1, m.end);
        ScanFindsEveryMatch(s, m.end);
      case None =>
        ScanFindsEveryMatch(s, p + 1);
    }
  }

  // ---------------------------------------------------------------------------
  // The parse as a whole (lines 131-176)

  datatype ManifestError = NoInitData | NoSegments

  /** What `download_m3u8` returns on success: the inline data and the segment URLs. */
  datatype Playlist = Playlist(initData: string, segments: seq<string>)

  /** Lines 168-169: names starting with `http` are kept, others joined to the base. */
  function Resolve(name: string, base: string, urljoin: (string, string) -> string): string
  {
    if StartsWith(name, "http") then name else urljoin(base, name)
  }

  function ResolveAll(names: seq<string>, base: string, urljoin: (string, string) -> string): (r: seq<string>)
    ensures |r| == |names|
    ensures forall i :: 0 <= i < |names| ==> r[i] == Resolve(names[i], base, urljoin)
  {
    if names == [] then [] else [Resolve(names[0], base, urljoin)] + ResolveAll(names[1..], base, urljoin)
  }

  /** `download_m3u8` after the playlist text has been fetched; `urljoin` is
      `urllib.parse.urljoin`, left abstract. */
  function ParseManifest(url: UrlParts, text: string, urljoin: (string, string) -> string): (r: Result<Playlist, ManifestError>)
    ensures r == Err(NoInitData) <==> SelectInitData(text).None?
    ensures r == Err(NoSegments) <==> SelectInitData(text).Some? && AllMatches(text, 0) == []
    ensures r.Ok? ==> r.value.initData == SelectInitData(text).value
    ensures r.Ok? ==>
      var names := AllMatches(text, 0);
      && |r.value.segments| == |names| > 0
      && forall i :: 0 <= i < |names| ==>
        r.value.segments[i] == (if StartsWith(names[i], "http") then names[i] else urljoin(BaseUrl(url), names[i]))
  {
    var base := BaseUrl(url);
    ScanFindsEveryMatch(text, 0);
    match SelectInitData(text)
    case None => Err(NoInitData)
    case Some(init) =>
      var segments := ResolveAll(Scan(text, 0), base, urljoin);
      if segments == [] then Err(NoSegments) else Ok(Playlist(init, segments))
  }

  /** What the pattern captures: at least one character, then `.m4s`, and no whitespace or `#`. */
  predicate IsSegmentName(t: string)
  {
    |t| > |M4sSuffix| && EndsWith(t, M4sSuffix) && forall j :: 0 <= j < |t| ==> IsTokenChar(t[j])
  }

  lemma TokenIsSegmentName(s: string, p: nat)
    requires ExtinfAt(s, p).Some?
    ensures IsSegmentName(Token(s, ExtinfAt(s, p).value))
  {
    var m := ExtinfAt(s, p).value;
    MatchedNameShape(s, p, m.comma, m.newline, m.end);
  }

  lemma MatchedNameShape(s: string, p: nat, c: nat, nl: nat, e: nat)
    requires IsExtinfMatch(s, p, c, nl, e)
    ensures IsSegmentName(s[nl + 1..e])
  {
    var t := s[nl + 1..e];
    assert t[|t| - |M4sSuffix|..] == s[e - |M4sSuffix|..e];
    SuffixIsPlain(s, e);
    forall j | 0 <= j < |t| ensures IsTokenChar(t[j]) {
      assert t[j] == s[nl + 1 + j];
    }
  }

  /** The characters of `.m4s` are neither whitespace nor `#`. */
  lemma SuffixIsPlain(s: string, e: nat)
    requires EndsM4sAt(s, e)
    ensures forall j :: e - |M4sSuffix| <= j < e ==> IsTokenChar(s[j])
  {
    var b := e - |M4sSuffix|;
    assert s[b] == '.' && s[b + 1] == 'm' && s[b + 2] == '4' && s[b + 3] == 's' by {
      assert s[b..e] == M4sSuffix;
    }
  }

  /** Every name the scan collects is a well-formed segment name. */
  lemma {:induction false} SegmentNamesShape(s: string, p: nat)
    ensures forall t :: t in AllMatches(s, p) ==> IsSegmentName(t)
    decreases |s| - p
  {
    if p < |s| {
      SegmentNamesShape(s, p + 1);
      if ExtinfAt(s, p).Some? {
        TokenIsSegmentName(s, p);
      }
    }
  }
}
