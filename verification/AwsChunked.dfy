/**
 The decoder of `aws-chunked` request bodies: a hexadecimal size, an optional extension, a line end, the
 data, a line end; a chunk of size zero ends the body.
 */
module AwsChunked {
  import opened Base
  import opened Text

  /** The length of the first line, its line feed included. */
  function LineLength(s: Bytes): (n: nat)
    ensures n <= |s| && (s != [] ==> n > 0)
  {
    Min(Find(s, '\n') + 1, |s|)
  }

  predicate Eol(c: Octet) {
    c == '\r' || c == '\n'
  }

  /** `trim_end_matches(['\r', '\n'])`. */
  function StripEol(s: Bytes): Bytes {
    if s != [] && Eol(s[|s| - 1]) then StripEol(s[..|s| - 1]) else s
  }

  function HexNumber(s: Bytes): Option<nat> {
    if s == [] then Some(0) else
    var high, low := HexNumber(s[..|s| - 1]), HexValue(s[|s| - 1]);
    if high.Some? && low.Some? then Some(high.value * 16 + low.value) else None
  }

  /** `usize::from_str_radix(_, 16)`. */
  function ParseHex(s: Bytes): Option<nat> {
    var digits := if s != [] && s[0] == '+' then s[1..] else s;
    if digits == [] then None else
    match HexNumber(digits)
    case None => None
    case Some(n) => if n < U64_LIMIT then Some(n) else None
  }

  /** A number is its digits, of either case, in base 16; a plus sign may come first, and there must be a digit. */
  lemma ParseHexIff(s: Bytes, n: nat)
    ensures var digits := if s != [] && s[0] == '+' then s[1..] else s;
            ParseHex(s) == Some(n) <==> digits != [] && n < 0x1_0000_0000_0000_0000 && HexNumber(digits) == Some(n)
  {
  }

  lemma NextDigit(s: Bytes, d: Octet, m: nat, v: nat)
    requires v < 16 && (d == "0123456789abcdef"[v] || d == "0123456789ABCDEF"[v])
    ensures HexNumber(s) == Some(m) ==> HexNumber(s + [d]) == Some(m * 16 + v)
  {
    HexValueIff(d, v);
    hide HexValue;
    assert (s + [d])[..|s|] == s;
  }

  /** The chunk size that a line announces: what comes before the first semicolon. */
  function ParseSize(line: Bytes): Option<nat> {
    var stripped := StripEol(line);
    ParseHex(Trim(stripped[..Find(stripped, ';')]))
  }

  /** What a body decodes to; `None` is an error. `utf8` says which lines can be read as text. */
  function Decoded(utf8: Bytes -> bool, s: Bytes): Option<Bytes>
    decreases |s|
  {
    if s == [] then Some([]) else
    var line, rest := Take(s, LineLength(s)), Drop(s, LineLength(s));
    var size := if utf8(line) then ParseSize(line) else None;
    if size.None? then None
    else if size.value == 0 then Some([])
    else if |rest| < size.value then None
    else Prepend(Take(rest, size.value), Decoded(utf8, Drop(rest, size.value + 2)))
  }

  function Prepend(a: Bytes, tail: Option<Bytes>): Option<Bytes> {
    match tail
    case None => None
    case Some(b) => Some(a + b)
  }

  lemma PrependTwice(a: Bytes, b: Bytes, tail: Option<Bytes>)
    ensures Prepend(a, Prepend(b, tail)) == Prepend(a + b, tail)
    ensures Prepend([], tail) == tail
    ensures Prepend(a, Some([])) == Some(a) && Prepend(a, None) == None
  {
    if tail.Some? {
      assert a + (b + tail.value) == a + b + tail.value;
      assert [] + tail.value == tail.value;
    }
    assert a + [] == a;
  }

  lemma EmptyBody(utf8: Bytes -> bool)
    ensures Decoded(utf8, []) == Some([])
  {
  }

  lemma Shrinks(s: Bytes, n: nat, m: nat)
    requires s != [] && n > 0
    ensures |Drop(Drop(s, n), m)| < |s|
  {
  }

  /** The case distinction of one turn of the loop. */
  lemma OneTurn(utf8: Bytes -> bool, s: Bytes)
    requires s != []
    ensures var line, rest := Take(s, LineLength(s)), Drop(s, LineLength(s));
            var size := if utf8(line) then ParseSize(line) else None;
            Decoded(utf8, s) ==
              if size.None? then None
              else if size.value == 0 then Some([])
              else if |rest| < size.value then None
              else Prepend(Take(rest, size.value), Decoded(utf8, Drop(rest, size.value + 2)))
  {
    hide Take, ParseSize, LineLength;
  }

  /** The loop of `body_to_reader`. The two bytes after the data are skipped unseen, as far as they are there. */
  method DecodeBody(utf8: Bytes -> bool, body: Bytes) returns (r: Option<Bytes>)
    ensures r == Decoded(utf8, body)
  {
    var decoded: Bytes := [];
    var rest := body;
    hide *;
    PrependTwice([], [], Decoded(utf8, body));
    EmptyBody(utf8);
    while rest != []
      invariant Decoded(utf8, body) == Prepend(decoded, Decoded(utf8, rest))
      decreases |rest|
    {
      var n := LineLength(rest);
      var line, after := Take(rest, n), Drop(rest, n);
      var size := if utf8(line) then ParseSize(line) else None;
      OneTurn(utf8, rest);
      PrependTwice(decoded, [], None);
      if size.None? {
        return None;
      }
      if size.value == 0 {
        break;
      }
      if |after| < size.value {
        return None;
      }
      PrependTwice(decoded, Take(after, size.value), Decoded(utf8, Drop(after, size.value + 2)));
      Shrinks(rest, n, size.value + 2);
      decoded := decoded + Take(after, size.value);
      rest := Drop(after, size.value + 2);
    }
    PrependTwice(decoded, [], None);
    return Some(decoded);
  }

  // ---- framed bodies ----

  /** A chunk as a client frames it: the size in hexadecimal, an extension, the data. */
  datatype Chunk = Chunk(size: Bytes, ext: Bytes, data: Bytes)

  const EOL: Bytes := ['\r', '\n']

  predicate HexDigits(s: Bytes) {
    s != [] && forall i :: 0 <= i < |s| ==> HexValue(s[i]).Some?
  }

  predicate Extension(ext: Bytes) {
    IsAscii(ext) && Free(ext, '\n') && (ext != [] ==> ext[0] == ';')
  }

  ghost predicate WellFramed(c: Chunk) {
    && HexDigits(c.size) && HexNumber(c.size) == Some(|c.data|) && 0 < |c.data| < U64_LIMIT
    && Extension(c.ext)
  }

  function Line(digits: Bytes, ext: Bytes): Bytes {
    digits + (ext + EOL)
  }

  function Header(c: Chunk): Bytes {
    Line(c.size, c.ext)
  }

  function Framed(cs: seq<Chunk>, end: Bytes): Bytes {
    if cs == [] then end else Header(cs[0]) + (cs[0].data + EOL + Framed(cs[1..], end))
  }

  function DataOf(cs: seq<Chunk>): Bytes {
    if cs == [] then [] else cs[0].data + DataOf(cs[1..])
  }

  // ---- reading a size line ----

  lemma {:induction false} StripTail(a: Bytes, t: Bytes)
    requires a != [] && !Eol(a[|a| - 1])
    ensures StripEol(a + t) == a + StripEol(t)
    decreases |t|
  {
    if t == [] {
      assert a + t == a;
    } else if Eol(t[|t| - 1]) {
      StripTail(a, t[..|t| - 1]);
      assert (a + t)[..|a + t| - 1] == a + t[..|t| - 1];
    }
  }

  /** What may follow the digits on a line: nothing, an extension, or part of a line end. */
  predicate Follows(t: Bytes) {
    t == [] || t[0] == ';' || forall i :: 0 <= i < |t| ==> Eol(t[i])
  }

  lemma {:induction false} StripFollows(t: Bytes)
    requires Follows(t)
    ensures StripEol(t) == [] || StripEol(t)[0] == ';'
  {
    if t != [] && Eol(t[|t| - 1]) {
      StripFollows(t[..|t| - 1]);
    }
  }

  lemma DigitsAreClean(digits: Bytes)
    requires HexDigits(digits)
    ensures digits != [] && Free(digits, ';') && Free(digits, '\n') && IsAscii(digits) && digits[0] != '+' && !Eol(digits[|digits| - 1])
    ensures Trim(digits) == digits
  {
    assert !Blank(digits[0]) && !Blank(digits[|digits| - 1]);
  }

  lemma SizeOfLine(digits: Bytes, t: Bytes)
    requires HexDigits(digits) && Follows(t)
    ensures ParseSize(digits + t) == ParseHex(digits)
  {
    hide HexDigits, Trim, Eol, ParseHex, Follows;
    DigitsAreClean(digits);
    StripTail(digits, t);
    StripFollows(t);
    var u := StripEol(t);
    hide StripEol;
    if u == [] {
      assert digits + u == digits;
      FindNone(digits, ';');
      assert digits[..|digits|] == digits;
    } else {
      FindAt(digits, ';', u[1..]);
      assert digits + [';'] + u[1..] == digits + u;
    }
  }

  lemma ParsesDigits(digits: Bytes)
    requires HexDigits(digits)
    ensures ParseHex(digits) == match HexNumber(digits) { case None => None case Some(n) => if n < U64_LIMIT then Some(n) else None }
  {
    DigitsAreClean(digits);
  }

  function LeadingZeros(s: Bytes): (n: nat)
    ensures n <= |s| && (forall i :: 0 <= i < n ==> s[i] == '0') && (n < |s| ==> s[n] != '0')
  {
    if s == [] || s[0] != '0' then 0 else 1 + LeadingZeros(s[1..])
  }

  /** A number is zero iff all its digits are. */
  lemma {:induction false} ZeroIff(s: Bytes)
    requires HexDigits(s)
    ensures HexNumber(s).Some? && (HexNumber(s).value == 0 <==> forall i :: 0 <= i < |s| ==> s[i] == '0')
  {
    var last := s[|s| - 1];
    if |s| == 1 {
      assert s[..0] == [];
      assert HexNumber(s) == HexValue(s[0]);
    } else {
      ZeroIff(s[..|s| - 1]);
    }
    assert HexValue(last).value == 0 <==> last == '0';
  }

  /** So a number cut off is zero iff the cut is within its leading zeros. */
  lemma CutNumber(s: Bytes, n: nat)
    requires HexDigits(s) && 0 < n <= |s|
    ensures HexNumber(s[..n]).Some? && (HexNumber(s[..n]).value == 0 <==> n <= LeadingZeros(s))
  {
    ZeroIff(s[..n]);
    var z := LeadingZeros(s);
    assert z < n ==> s[..n][z] == s[z];
  }

  /** A piece of a size line, cut off before its line feed. */
  lemma CutLine(utf8: Bytes -> bool, digits: Bytes, ext: Bytes, n: nat)
    requires ReadsAscii(utf8) && HexDigits(digits) && Extension(ext) && 0 < n < |Line(digits, ext)|
    ensures var s, start := Line(digits, ext)[..n], digits[..Min(n, |digits|)];
            HexDigits(start) && LineLength(s) == n && utf8(s) && ParseSize(s) == ParseHex(start)
  {
    var s, start := Line(digits, ext)[..n], digits[..Min(n, |digits|)];
    var t := (ext + EOL)[..n - |start|];
    assert s == start + t;
    assert Follows(t);
    DigitsAreClean(digits);
    assert HexDigits(start) && IsAscii(s) && Free(s, '\n');
    hide HexDigits, IsAscii, Free, Follows, Line, Extension, ParseSize, ParseHex, Find;
    FindNone(s, '\n');
    SizeOfLine(start, t);
  }

  ghost predicate ReadsAscii(utf8: Bytes -> bool) {
    forall s :: IsAscii(s) ==> utf8(s)
  }

  lemma WholeLine(utf8: Bytes -> bool, digits: Bytes, ext: Bytes, t: Bytes)
    requires ReadsAscii(utf8) && HexDigits(digits) && Extension(ext)
    ensures var line := Line(digits, ext);
            && LineLength(line + t) == |line| && Take(line + t, |line|) == line && Drop(line + t, |line|) == t
            && utf8(line) && ParseSize(line) == ParseHex(digits)
  {
    var line := Line(digits, ext);
    DigitsAreClean(digits);
    var front := digits + ext + ['\r'];
    assert line == front + ['\n'];
    assert Free(front, '\n');
    FindAt(front, '\n', t);
    assert line + t == front + ['\n'] + t;
    assert Follows(ext + EOL);
    SizeOfLine(digits, ext + EOL);
  }

  // ---- decoding a framed body, whole or cut off ----

  lemma PartialHeader(utf8: Bytes -> bool, c: Chunk, n: nat)
    requires ReadsAscii(utf8) && WellFramed(c) && 0 < n < |Header(c)|
    ensures Decoded(utf8, Header(c)[..n]) == if n <= LeadingZeros(c.size) then Some([]) else None
  {
    var s, start := Header(c)[..n], c.size[..Min(n, |c.size|)];
    hide Line, ParseSize, ParseHex, LineLength, HexNumber, ReadsAscii, HexDigits;
    CutLine(utf8, c.size, c.ext, n);
    CutNumber(c.size, Min(n, |c.size|));
    CutNumber(c.size, |c.size|);
    assert c.size[..|c.size|] == c.size;
    ParsesDigits(start);
    OneTurn(utf8, s);
    assert Drop(s, n) == [] && Take(s, n) == s;
  }

  lemma FullHeader(utf8: Bytes -> bool, c: Chunk, t: Bytes)
    requires ReadsAscii(utf8) && WellFramed(c)
    ensures Decoded(utf8, Header(c) + t) ==
            if |t| < |c.data| then None else Prepend(Take(t, |c.data|), Decoded(utf8, Drop(t, |c.data| + 2)))
    ensures Header(c) != [] && c.data != []
  {
    hide ParseSize, ParseHex, LineLength, HexNumber, ReadsAscii, HexDigits, Take, Drop, Prepend, Decoded;
    DigitsAreClean(c.size);
    assert Header(c) != [];
    hide Line;
    WholeLine(utf8, c.size, c.ext, t);
    ParsesDigits(c.size);
    OneTurn(utf8, Header(c) + t);
  }

  /** The zero chunk ends the body, whatever follows it and however much of it has arrived. */
  lemma ZeroChunk(utf8: Bytes -> bool, ext: Bytes, trailer: Bytes, n: nat)
    requires ReadsAscii(utf8) && Extension(ext)
    ensures Decoded(utf8, Take(Line(['0'], ext) + trailer, n)) == Some([])
  {
    var line := Line(['0'], ext);
    var s := Take(line + trailer, n);
    assert HexNumber(['0']) == Some(0) by { assert ['0'][..0] == []; }
    ParsesDigits(['0']);
    hide ParseSize, ParseHex, LineLength, HexNumber, ReadsAscii, HexDigits, Decoded;
    if n == 0 {
      EmptyBody(utf8);
    } else if n < |line| {
      ZeroCut(line, trailer, n);
      CutLine(utf8, ['0'], ext, n);
      OneTurn(utf8, s);
    } else {
      var t := Take(trailer, n - |line|);
      assert s == line + t;
      WholeLine(utf8, ['0'], ext, t);
      OneTurn(utf8, s);
    }
  }

  lemma ZeroCut(line: Bytes, trailer: Bytes, n: nat)
    requires 0 < n < |line|
    ensures Take(line + trailer, n) == line[..n] == Take(line[..n], n) != []
    ensures ['0'][..Min(n, 1)] == ['0']
  {
  }

  /**
   What the first `n` bytes of a framed body decode to: an error if they end inside a size line or inside
   data, else the chunks whose data have arrived. A cut within leading zeros of a size looks like the end.
   */
  function Expected(cs: seq<Chunk>, n: nat): Option<Bytes> {
    if cs == [] || n <= LeadingZeros(cs[0].size) then Some([]) else
    var block := |Header(cs[0])| + |cs[0].data|;
    if n < block then None else Prepend(cs[0].data, Expected(cs[1..], Minus(n, block + 2)))
  }

  lemma CutInHeader(h: Bytes, t: Bytes, n: nat)
    requires n < |h|
    ensures Take(h + t, n) == h[..n]
  {
  }

  lemma CutAfterHeader(h: Bytes, t: Bytes, n: nat)
    requires n >= |h|
    ensures Take(h + t, n) == h + Take(t, n - |h|)
  {
  }

  lemma CutAfterData(data: Bytes, rest: Bytes, n: nat)
    ensures var t := Take(data + EOL + rest, n);
            && (|t| < |data| <==> n < |data|)
            && (n >= |data| ==> Take(t, |data|) == data && Drop(t, |data| + 2) == Take(rest, Minus(n, |data| + 2)))
  {
    var s := data + EOL + rest;
    var t := Take(s, n);
    if n >= |data| {
      assert t[..|data|] == s[..|data|] == data;
      assert s[|data| + 2..] == rest;
    }
  }

  ghost predicate AllWellFramed(cs: seq<Chunk>) {
    forall i :: 0 <= i < |cs| ==> WellFramed(cs[i])
  }

  /** Decoding any beginning of a framed body, cut off at any byte. */
  lemma {:induction false} CutBodyDecodes(utf8: Bytes -> bool, cs: seq<Chunk>, ext: Bytes, trailer: Bytes, n: nat)
    requires ReadsAscii(utf8) && AllWellFramed(cs) && Extension(ext)
    ensures Decoded(utf8, Take(Framed(cs, Line(['0'], ext) + trailer), n)) == Expected(cs, n)
  {
    hide Decoded, Take, Drop, Line, WellFramed, ReadsAscii, Extension, Prepend;
    var end := Line(['0'], ext) + trailer;
    if cs == [] {
      ZeroChunk(utf8, ext, trailer, n);
    } else if n == 0 {
      assert n <= LeadingZeros(cs[0].size);
      TakeNothing(Framed(cs, end));
      EmptyBody(utf8);
    } else {
      var c, rest := cs[0], Framed(cs[1..], end);
      var h, t := Header(c), c.data + EOL + rest;
      assert Framed(cs, end) == h + t;
      hide Framed;
      assert AllWellFramed(cs[1..]);
      if n < |h| {
        CutInHeader(h, t, n);
        PartialHeader(utf8, c, n);
      } else {
        HeaderIsLonger(c);
        CutAfterHeader(h, t, n);
        FullHeader(utf8, c, Take(t, n - |h|));
        CutAfterData(c.data, rest, n - |h|);
        CutBodyDecodes(utf8, cs[1..], ext, trailer, Minus(n, |h| + |c.data| + 2));
      }
    }
  }

  lemma HeaderIsLonger(c: Chunk)
    ensures LeadingZeros(c.size) < |Header(c)|
  {
  }

  lemma TakeNothing(s: Bytes)
    ensures Take(s, 0) == []
  {
  }

  lemma TakeEverything(s: Bytes)
    ensures Take(s, |s|) == s
  {
  }

  lemma {:induction false} ExpectedWhole(cs: seq<Chunk>, end: Bytes, n: nat)
    requires AllWellFramed(cs) && n >= |Framed(cs, end)|
    ensures Expected(cs, n) == Some(DataOf(cs))
  {
    if cs != [] {
      ExpectedWhole(cs[1..], end, n - |Header(cs[0])| - |cs[0].data| - 2);
    }
  }

  /** A framed body decodes to the concatenation of its chunks, whatever bytes they hold. */
  lemma FramedDecodes(utf8: Bytes -> bool, cs: seq<Chunk>, ext: Bytes, trailer: Bytes)
    requires ReadsAscii(utf8) && AllWellFramed(cs) && Extension(ext)
    ensures Decoded(utf8, Framed(cs, Line(['0'], ext) + trailer)) == Some(DataOf(cs))
  {
    var end := Line(['0'], ext) + trailer;
    hide *;
    TakeEverything(Framed(cs, end));
    CutBodyDecodes(utf8, cs, ext, trailer, |Framed(cs, end)|);
    ExpectedWhole(cs, end, |Framed(cs, end)|);
  }

  lemma {:induction false} ExpectedAtBoundary(cs: seq<Chunk>, more: seq<Chunk>)
    requires AllWellFramed(cs)
    ensures Expected(cs + more, |Framed(cs, [])|) == Some(DataOf(cs))
  {
    if cs == [] {
      assert cs + more == more;
    } else {
      assert (cs + more)[0] == cs[0] && (cs + more)[1..] == cs[1..] + more;
      ExpectedAtBoundary(cs[1..], more);
    }
  }

  /** A body that breaks off after any chunk is accepted as if it were complete. */
  lemma MissingEndIsAccepted(utf8: Bytes -> bool, cs: seq<Chunk>, more: seq<Chunk>, ext: Bytes)
    requires ReadsAscii(utf8) && AllWellFramed(cs + more) && AllWellFramed(cs) && Extension(ext)
    ensures Decoded(utf8, Take(Framed(cs + more, Line(['0'], ext)), |Framed(cs, [])|)) == Some(DataOf(cs))
  {
    hide *;
    ExpectedAtBoundary(cs, more);
    CutBodyDecodes(utf8, cs + more, ext, [], |Framed(cs, [])|);
    assert Line(['0'], ext) + [] == Line(['0'], ext);
  }

  /** The size of every non-empty chunk can be written so. */
  function HexOf(n: nat): (s: Bytes)
    requires n > 0
    ensures HexDigits(s) && s[0] != '0' && HexNumber(s) == Some(n)
  {
    if n < 16 then
      assert [HexDigit(n)][..0] == [];
      [HexDigit(n)]
    else
      var s := HexOf(n / 16) + [HexDigit(n % 16)];
      assert s[..|s| - 1] == HexOf(n / 16);
      s
  }

  lemma AnyDataCanBeFramed(data: Bytes, ext: Bytes)
    requires 0 < |data| < U64_LIMIT && Extension(ext)
    ensures WellFramed(Chunk(HexOf(|data|), ext, data))
  {
    hide HexNumber, HexDigits, Extension;
  }
}
