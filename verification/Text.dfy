/**
 Byte strings as the signature code handles them: percent-encoding (sections 2.1 and 2.3 of RFC 3986),
 splitting and joining at a separator, and the byte-wise order used for sorting.
 */
module Text {
  import opened Base

  /** One byte of a string, written as the character with that code. */
  type Octet = c: char | c as int < 256 witness 'a'
  type Bytes = seq<Octet>

  predicate IsAscii(s: Bytes) {
    forall i :: 0 <= i < |s| ==> s[i] as int < 128
  }

  // ---------------------------------------------------------------- percent-encoding

  predicate Unreserved(c: Octet) {
    'A' <= c <= 'Z' || 'a' <= c <= 'z' || '0' <= c <= '9' || c == '-' || c == '_' || c == '.' || c == '~'
  }

  function HexDigit(n: nat): (c: Octet)
    requires n < 16
    ensures HexValue(c) == Some(n) && Unreserved(c)
  {
    if n < 10 then ('0' as int + n) as char else ('A' as int + (n - 10)) as char
  }

  function HexValue(c: Octet): (r: Option<nat>)
    ensures r.Some? ==> r.value < 16
  {
    if '0' <= c <= '9' then Some(c as int - '0' as int)
    else if 'A' <= c <= 'F' then Some(c as int - 'A' as int + 10)
    else if 'a' <= c <= 'f' then Some(c as int - 'a' as int + 10)
    else None
  }

  lemma HexDigitIs(n: nat)
    requires n < 16
    ensures HexDigit(n) == "0123456789ABCDEF"[n]
  {
  }

  /** The digits of both cases, each with its place in the usual order. */
  lemma HexValueIff(c: Octet, v: nat)
    ensures HexValue(c) == Some(v) <==> v < 16 && (c == "0123456789abcdef"[v] || c == "0123456789ABCDEF"[v])
  {
  }

  lemma Letter(i: nat)
    requires i < 26
    ensures "ABCDEFGHIJKLMNOPQRSTUVWXYZ"[i] as int == 'A' as int + i && "abcdefghijklmnopqrstuvwxyz"[i] as int == 'a' as int + i
  {
  }

  /** The set of section 2.3 of RFC 3986. */
  lemma UnreservedIff(c: Octet)
    ensures Unreserved(c) <==> c in "ABCDEFGHIJKLMNOPQRSTUVWXYZ" || c in "abcdefghijklmnopqrstuvwxyz" || c in "0123456789" || c in "-._~"
  {
    forall i: nat | i < 26
      ensures "ABCDEFGHIJKLMNOPQRSTUVWXYZ"[i] as int == 'A' as int + i && "abcdefghijklmnopqrstuvwxyz"[i] as int == 'a' as int + i
    {
      Letter(i);
    }
    if 'A' <= c <= 'Z' {
      Letter(c as int - 'A' as int);
    } else if 'a' <= c <= 'z' {
      Letter(c as int - 'a' as int);
    }
    hide *;
  }

  function EncodeByte(c: Octet): Bytes {
    if Unreserved(c) then [c] else ['%', HexDigit(c as int / 16), HexDigit(c as int % 16)]
  }

  /** `utf8_percent_encode` with everything but the unreserved characters escaped. */
  function Encode(s: Bytes): Bytes {
    if s == [] then [] else EncodeByte(s[0]) + Encode(s[1..])
  }

  predicate IsEscape(s: Bytes) {
    |s| >= 3 && s[0] == '%' && HexValue(s[1]).Some? && HexValue(s[2]).Some?
  }

  /** `percent_decode_str`: a `%` that does not start an escape stands for itself. */
  function Decode(s: Bytes): Bytes {
    if s == [] then []
    else if IsEscape(s) then [(HexValue(s[1]).value * 16 + HexValue(s[2]).value) as char] + Decode(s[3..])
    else [s[0]] + Decode(s[1..])
  }

  /** A character that an encoded string can contain. */
  predicate Clean(c: Octet) {
    Unreserved(c) || c == '%'
  }

  predicate AllClean(s: Bytes) {
    forall i :: 0 <= i < |s| ==> Clean(s[i])
  }

  lemma {:induction false} EncodeIsClean(s: Bytes)
    ensures AllClean(Encode(s))
  {
    if s != [] {
      EncodeIsClean(s[1..]);
    }
  }

  lemma {:induction false} DecodeEncode(s: Bytes)
    ensures Decode(Encode(s)) == s
  {
    if s != [] {
      DecodeEncode(s[1..]);
      var head, rest := EncodeByte(s[0]), Encode(s[1..]);
      if Unreserved(s[0]) {
        assert (head + rest)[0] == s[0] && (head + rest)[1..] == rest;
      } else {
        assert (head + rest)[3..] == rest;
        assert (head + rest)[1] == HexDigit(s[0] as int / 16) && (head + rest)[2] == HexDigit(s[0] as int % 16);
      }
    }
  }

  lemma EncodeInjective(a: Bytes, b: Bytes)
    requires Encode(a) == Encode(b)
    ensures a == b
  {
    DecodeEncode(a);
    DecodeEncode(b);
  }

  lemma {:induction false} EncodeUnreserved(s: Bytes)
    requires forall i :: 0 <= i < |s| ==> Unreserved(s[i])
    ensures Encode(s) == s
  {
    if s != [] {
      EncodeUnreserved(s[1..]);
    }
  }

  /** What comes before the first percent sign stands for itself. */
  lemma {:induction false} DecodePlain(a: Bytes, b: Bytes)
    requires Free(a, '%')
    ensures Decode(a + b) == a + Decode(b)
  {
    if a == [] {
      assert a + b == b;
    } else {
      DecodePlain(a[1..], b);
      assert (a + b)[1..] == a[1..] + b;
      assert a == [a[0]] + a[1..];
    }
  }

  /** A percent sign with two hexadecimal digits of either case is one byte. */
  lemma DecodeEscape(h: Octet, l: Octet, v: nat, w: nat, b: Bytes)
    requires v < 16 && w < 16
    requires h == "0123456789abcdef"[v] || h == "0123456789ABCDEF"[v]
    requires l == "0123456789abcdef"[w] || l == "0123456789ABCDEF"[w]
    ensures Decode(['%', h, l] + b) == [(v * 16 + w) as char] + Decode(b)
  {
    HexValueIff(h, v);
    HexValueIff(l, w);
    assert (['%', h, l] + b)[3..] == b;
  }

  /** Any other percent sign stands for itself. */
  lemma DecodeStray(b: Bytes)
    requires |b| < 2 || HexValue(b[0]).None? || HexValue(b[1]).None?
    ensures Decode(['%'] + b) == ['%'] + Decode(b)
  {
    assert (['%'] + b)[1..] == b;
  }

  // ---------------------------------------------------------------- split and join

  predicate Free(s: Bytes, sep: Octet) {
    forall i :: 0 <= i < |s| ==> s[i] != sep
  }

  predicate AllFree(parts: seq<Bytes>, sep: Octet) {
    forall i :: 0 <= i < |parts| ==> Free(parts[i], sep)
  }

  function Find(s: Bytes, sep: Octet): (i: nat)
    ensures i <= |s| && Free(s[..i], sep) && (i < |s| ==> s[i] == sep)
  {
    if s == [] || s[0] == sep then 0
    else
      var j := Find(s[1..], sep);
      assert s[..j + 1] == [s[0]] + s[1..][..j];
      j + 1
  }

  /** `str::split`: always at least one part. */
  function Split(s: Bytes, sep: Octet): (parts: seq<Bytes>)
    ensures |parts| > 0 && AllFree(parts, sep)
    decreases |s|
  {
    var i := Find(s, sep);
    if i == |s| then assert s[..i] == s; [s] else [s[..i]] + Split(s[i + 1..], sep)
  }

  function Join(parts: seq<Bytes>, sep: Octet): Bytes {
    if parts == [] then []
    else if |parts| == 1 then parts[0]
    else parts[0] + [sep] + Join(parts[1..], sep)
  }

  lemma FindAt(a: Bytes, sep: Octet, b: Bytes)
    requires Free(a, sep)
    ensures Find(a + [sep] + b, sep) == |a|
    ensures (a + [sep] + b)[..|a|] == a && (a + [sep] + b)[|a| + 1..] == b
  {
    var s := a + [sep] + b;
    var i := Find(s, sep);
    assert forall j :: 0 <= j < |a| ==> s[j] == a[j];
    assert forall j :: 0 <= j < i ==> s[..i][j] == s[j];
    assert s[|a|] == sep;
  }

  lemma FindNone(a: Bytes, sep: Octet)
    requires Free(a, sep)
    ensures Find(a, sep) == |a|
  {
  }

  lemma {:induction false} SplitJoin(parts: seq<Bytes>, sep: Octet)
    requires |parts| > 0 && AllFree(parts, sep)
    ensures Split(Join(parts, sep), sep) == parts
    decreases |parts|
  {
    hide Find, Free;
    if |parts| == 1 {
      FindNone(parts[0], sep);
    } else {
      SplitJoin(parts[1..], sep);
      FindAt(parts[0], sep, Join(parts[1..], sep));
    }
  }

  lemma {:induction false} JoinFree(parts: seq<Bytes>, sep: Octet, other: Octet)
    requires sep != other && AllFree(parts, other)
    ensures Free(Join(parts, sep), other)
  {
    if |parts| > 1 {
      JoinFree(parts[1..], sep, other);
    }
  }

  lemma {:induction false} JoinSplit(s: Bytes, sep: Octet)
    ensures Join(Split(s, sep), sep) == s
    decreases |s|
  {
    hide Find, Free, AllFree;
    var i := Find(s, sep);
    if i < |s| {
      JoinSplit(s[i + 1..], sep);
      var rest := Split(s[i + 1..], sep);
      assert ([s[..i]] + rest)[1..] == rest;
      assert s == s[..i] + [sep] + s[i + 1..];
    }
  }

  /** `splitn(2, sep)`: the text before the first separator and the text after it. */
  function SplitOnce(s: Bytes, sep: Octet): (Bytes, Bytes) {
    var i := Find(s, sep);
    if i == |s| then (s, []) else (s[..i], s[i + 1..])
  }

  // ---------------------------------------------------------------- order

  predicate Le(a: Bytes, b: Bytes) {
    a == [] || (b != [] && (a[0] < b[0] || (a[0] == b[0] && Le(a[1..], b[1..]))))
  }

  /** The order of the standard library, byte by byte from the front: a prefix first, else the first difference decides. */
  ghost predicate InOrder(a: Bytes, b: Bytes) {
    a <= b || exists i :: 0 <= i < |a| && i < |b| && a[..i] == b[..i] && a[i] < b[i]
  }

  /** After equal first bytes the rest decides. */
  lemma InOrderTail(a: Bytes, b: Bytes)
    requires a != [] && b != [] && a[0] == b[0]
    ensures InOrder(a, b) <==> InOrder(a[1..], b[1..])
  {
    assert a == [a[0]] + a[1..] && b == [b[0]] + b[1..];
    if i :| 0 <= i < |a[1..]| && i < |b[1..]| && a[1..][..i] == b[1..][..i] && a[1..][i] < b[1..][i] {
      assert a[..i + 1] == [a[0]] + a[1..][..i] && b[..i + 1] == [b[0]] + b[1..][..i];
    }
    if i :| 0 <= i < |a| && i < |b| && a[..i] == b[..i] && a[i] < b[i] {
      assert i > 0 && a[1..][..i - 1] == a[..i][1..] && b[1..][..i - 1] == b[..i][1..];
      assert a[1..][i - 1] < b[1..][i - 1];
    }
  }

  /** Different first bytes decide. */
  lemma InOrderHead(a: Bytes, b: Bytes)
    requires a != [] && b != [] && a[0] != b[0]
    ensures InOrder(a, b) <==> a[0] < b[0]
  {
    forall i | 0 < i <= |a| && i <= |b|
      ensures a[..i] != b[..i]
    {
      assert a[..i][0] == a[0] && b[..i][0] == b[0];
    }
    assert a[..0] == b[..0];
  }

  lemma {:induction false} LeIff(a: Bytes, b: Bytes)
    ensures Le(a, b) <==> InOrder(a, b)
  {
    if a != [] && b != [] {
      if a[0] == b[0] {
        LeIff(a[1..], b[1..]);
        InOrderTail(a, b);
      } else {
        InOrderHead(a, b);
      }
    }
  }

  lemma {:induction false} LeTotal(a: Bytes, b: Bytes)
    ensures Le(a, b) || Le(b, a)
  {
    if a != [] && b != [] && a[0] == b[0] {
      LeTotal(a[1..], b[1..]);
    }
  }

  lemma {:induction false} LeAntisymmetric(a: Bytes, b: Bytes)
    requires Le(a, b) && Le(b, a)
    ensures a == b
  {
    if a != [] {
      LeAntisymmetric(a[1..], b[1..]);
      assert a == [a[0]] + a[1..] && b == [b[0]] + b[1..];
    }
  }

  lemma {:induction false} LeTransitive(a: Bytes, b: Bytes, c: Bytes)
    requires Le(a, b) && Le(b, c)
    ensures Le(a, c)
  {
    if a != [] && a[0] == b[0] == c[0] {
      LeTransitive(a[1..], b[1..], c[1..]);
    }
  }

  // ---------------------------------------------------------------- blanks

  predicate Blank(c: Octet) {
    c == ' ' || c == '\t' || c == '\n' || c == '\r'
  }

  function TrimStart(s: Bytes): Bytes {
    if s != [] && Blank(s[0]) then TrimStart(s[1..]) else s
  }

  function TrimEnd(s: Bytes): Bytes {
    if s != [] && Blank(s[|s| - 1]) then TrimEnd(s[..|s| - 1]) else s
  }

  function Trim(s: Bytes): Bytes {
    TrimEnd(TrimStart(s))
  }

  lemma {:induction false} TrimStartIs(s: Bytes) returns (i: nat)
    ensures i <= |s| && TrimStart(s) == s[i..]
    ensures forall k :: 0 <= k < i ==> s[k] in " \t\n\r"
    ensures i < |s| ==> s[i] !in " \t\n\r"
  {
    i := 0;
    if s != [] && Blank(s[0]) {
      var j := TrimStartIs(s[1..]);
      i := j + 1;
      assert s[1..][j..] == s[i..];
    }
  }

  lemma {:induction false} TrimEndIs(s: Bytes) returns (j: nat)
    ensures j <= |s| && TrimEnd(s) == s[..j]
    ensures forall k :: j <= k < |s| ==> s[k] in " \t\n\r"
    ensures j > 0 ==> s[j - 1] !in " \t\n\r"
  {
    j := |s|;
    if s != [] && Blank(s[|s| - 1]) {
      j := TrimEndIs(s[..|s| - 1]);
      assert s[..|s| - 1][..j] == s[..j];
    }
  }

  /** Trimming cuts off blanks at both ends, as many as there are. */
  lemma TrimIs(s: Bytes)
    ensures exists i, j :: 0 <= i <= j <= |s| && Trim(s) == s[i..j]
                        && (forall k :: 0 <= k < i || j <= k < |s| ==> s[k] in " \t\n\r")
                        && (i < j ==> s[i] !in " \t\n\r" && s[j - 1] !in " \t\n\r")
  {
    var i := TrimStartIs(s);
    var j := TrimEndIs(s[i..]);
    assert s[i..][..j] == s[i..i + j];
    assert forall k :: j <= k < |s[i..]| ==> s[i + k] == s[i..][k];
    assert forall k :: i + j <= k < |s| ==> s[k] == s[i..][k - i];
  }

  // ---------------------------------------------------------------- decimal numbers

  function DigitsOf(n: nat): (s: Bytes)
    ensures |s| > 0 && forall i :: 0 <= i < |s| ==> '0' <= s[i] <= '9'
  {
    var d: Octet := ('0' as int + n % 10) as char;
    if n < 10 then [d] else DigitsOf(n / 10) + [d]
  }

  /** The value of a string of digits. */
  function ValueOf(s: Bytes): Option<nat> {
    if s == [] then Some(0)
    else
      var c := s[|s| - 1];
      var high := ValueOf(s[..|s| - 1]);
      if high.Some? && '0' <= c <= '9' then Some(high.value * 10 + (c as int - '0' as int)) else None
  }

  const U64_LIMIT: nat := 0x1_0000_0000_0000_0000

  /** `str::parse::<u64>`: digits, optionally after a plus sign, that fit. */
  function ParseU64(s: Bytes): Option<nat> {
    var digits := if s != [] && s[0] == '+' then s[1..] else s;
    if digits == [] then None
    else
      match ValueOf(digits)
      case None => None
      case Some(n) => if n < U64_LIMIT then Some(n) else None
  }

  lemma ValueOfOneMore(s: Bytes, n: nat, d: Octet)
    requires ValueOf(s) == Some(n) && '0' <= d <= '9'
    ensures ValueOf(s + [d]) == Some(n * 10 + (d as int - '0' as int))
  {
    assert (s + [d])[..|s|] == s;
  }

  lemma {:induction false} ValueOfDigits(n: nat)
    ensures ValueOf(DigitsOf(n)) == Some(n)
  {
    var high, d: Octet := DigitsOf(n / 10), ('0' as int + n % 10) as char;
    if n < 10 {
      ValueOfOneMore([], 0, d);
      assert [] + [d] == [d];
    } else {
      ValueOfDigits(n / 10);
      ValueOfOneMore(high, n / 10, d);
    }
  }

  lemma ParseDigits(n: nat)
    requires n < U64_LIMIT
    ensures ParseU64(DigitsOf(n)) == Some(n)
  {
    ValueOfDigits(n);
    assert DigitsOf(n)[0] != '+';
  }

  predicate AllZeros(s: Bytes) {
    forall i :: 0 <= i < |s| ==> s[i] == '0'
  }

  lemma {:induction false} ZerosAre(s: Bytes)
    requires AllZeros(s)
    ensures ValueOf(s) == Some(0)
  {
    if s != [] {
      ZerosAre(s[..|s| - 1]);
    }
  }

  /** `z` zeros, and then the digits of a number. */
  predicate Writes(s: Bytes, z: nat, n: nat) {
    z <= |s| && AllZeros(s[..z]) && s[z..] == DigitsOf(n)
  }

  lemma {:induction false} WritesHas(s: Bytes, z: nat, n: nat)
    requires Writes(s, z, n)
    ensures ValueOf(s) == Some(n)
    decreases n
  {
    var d: Octet := ('0' as int + n % 10) as char;
    assert s == s[..z] + DigitsOf(n);
    if n < 10 {
      ZerosAre(s[..z]);
      ValueOfOneMore(s[..z], 0, d);
    } else {
      var front := s[..z] + DigitsOf(n / 10);
      assert s == front + [d];
      assert front[..z] == s[..z] && front[z..] == DigitsOf(n / 10);
      WritesHas(front, z, n / 10);
      ValueOfOneMore(front, n / 10, d);
    }
  }

  lemma {:induction false} ValueIsWritten(s: Bytes, n: nat) returns (z: nat)
    requires s != [] && ValueOf(s) == Some(n)
    ensures Writes(s, z, n)
  {
    var front, d := s[..|s| - 1], s[|s| - 1];
    assert s == front + [d];
    if front == [] {
      z := 0;
    } else {
      var m := ValueOf(front).value;
      z := ValueIsWritten(front, m);
      assert n == m * 10 + (d as int - '0' as int) && n / 10 == m;
      if m == 0 {
        assert DigitsOf(0) == ['0'];
        assert front == front[..z] + ['0'];
        z := |front|;
        assert s[..z] == front && s[z..] == [d];
      } else {
        assert s[..z] == front[..z] && s[z..] == front[z..] + [d];
      }
    }
  }

  /** A parameter is read as `n` iff it writes `n` in decimal, with any number of leading zeros, perhaps after a plus sign. */
  lemma ParseU64Iff(s: Bytes, n: nat)
    ensures var digits := if s != [] && s[0] == '+' then s[1..] else s;
            ParseU64(s) == Some(n) <==> n < 0x1_0000_0000_0000_0000 && exists z :: Writes(digits, z, n)
  {
    var t := if s != [] && s[0] == '+' then s[1..] else s;
    if z :| Writes(t, z, n) {
      WritesHas(t, z, n);
      assert t != [];
    }
    if t != [] && ValueOf(t) == Some(n) {
      var z := ValueIsWritten(t, n);
    }
  }
}
