/** The byte stream a source snapshot hashes: for each file a JSON header of path and length in UTF-8, then
    the file's bytes. Equal streams come from equal lists of files. */
module SnapshotFraming {
  import D = Decimal

  type Byte = b: int | 0 <= b < 256
  /** A code point of a JavaScript string; an unpaired surrogate counts as one. */
  type Point = c: int | 0 <= c < 0x110000

  datatype File = File(path: seq<Point>, data: seq<Byte>)

  // ---------- Encoding ----------

  function Hex(d: int): Byte
    requires 0 <= d < 16
  {
    if d < 10 then 48 + d else 87 + d
  }

  function Utf8(c: Point): seq<Byte> {
    if c < 0x80 then [c]
    else if c < 0x800 then [0xC0 + c / 64, 0x80 + c % 64]
    else if c < 0x10000 then [0xE0 + c / 4096, 0x80 + c / 64 % 64, 0x80 + c % 64]
    else [0xF0 + c / 262144, 0x80 + c / 4096 % 64, 0x80 + c / 64 % 64, 0x80 + c % 64]
  }

  /** The letter of a two-character escape, 0 when the point has none. */
  function Escape(c: Point): Byte {
    if c == 34 then 34 else if c == 92 then 92
    else if c == 8 then 98 else if c == 9 then 116 else if c == 10 then 110
    else if c == 12 then 102 else if c == 13 then 114
    else 0
  }

  /** One point inside a JSON string: short escapes, other control characters and unpaired surrogates as
      hexadecimal escapes, everything else as UTF-8. */
  function Quote(c: Point): seq<Byte> {
    if Escape(c) != 0 then [92, Escape(c)]
    else if c < 32 || 0xD800 <= c < 0xE000
      then [92, 117, Hex(c / 4096), Hex(c / 256 % 16), Hex(c / 16 % 16), Hex(c % 16)]
    else Utf8(c)
  }

  /** JSON strings as section 7 of RFC 8259 has them: quotes, backslashes and control characters are escaped,
      here unpaired surrogates as well; seven of them have a letter, the others four hexadecimal digits. */
  lemma QuoteExactly(c: Point)
    ensures Quote(c)[0] == 92 <==> c == 34 || c == 92 || c <= 31 || 0xD800 <= c <= 0xDFFF
    ensures |Quote(c)| ==
            if c in {34, 92, 8, 9, 10, 12, 13} then 2 else if c <= 31 || 0xD800 <= c <= 0xDFFF then 6
            else if c <= 0x7F then 1 else if c <= 0x7FF then 2 else if c <= 0xFFFF then 3 else 4
    ensures Quote(34) == [92, 34] && Quote(92) == [92, 92] && Quote(8) == [92, 98] && Quote(9) == [92, 116]
    ensures Quote(10) == [92, 110] && Quote(12) == [92, 102] && Quote(13) == [92, 114]
    ensures Quote(31) == [92, 117, 48, 48, 49, 102]
  {
  }

  function QuoteAll(path: seq<Point>): seq<Byte> {
    if path == [] then [] else Quote(path[0]) + QuoteAll(path[1..])
  }

  function Number(n: nat): seq<Byte> {
    Digits(D.ToText(n))
  }

  function Digits(s: string): (b: seq<Byte>)
    requires forall c <- s :: D.IsDigit(c)
    ensures |b| == |s| && forall i :: 0 <= i < |s| ==> b[i] == s[i] as int
  {
    if s == "" then []
    else
      assert D.IsDigit(s[0]);
      var first: Byte := s[0] as int;
      [first] + Digits(s[1..])
  }

  /** `JSON.stringify([path, length])`. */
  function Header(path: seq<Point>, length: nat): seq<Byte> {
    [91, 34] + QuoteAll(path) + [34, 44] + Number(length) + [93]
  }

  function Frame(f: File): seq<Byte> {
    Header(f.path, |f.data|) + f.data
  }

  function Stream(files: seq<File>): seq<Byte> {
    if files == [] then [] else Stream(files[..|files| - 1]) + Frame(files[|files| - 1])
  }

  // ---------- Reading one symbol back ----------

  function Unhex(b: int): int {
    if b < 58 then b - 48 else b - 87
  }

  function Unescape(b: int): int {
    if b == 98 then 8 else if b == 116 then 9 else if b == 110 then 10
    else if b == 102 then 12 else if b == 114 then 13 else b
  }

  /** How many bytes the symbol at the front takes, from its first bytes alone. */
  function Width(s: seq<Byte>): nat {
    if |s| == 0 then 0
    else if s[0] == 92 then (if |s| > 1 && s[1] == 117 then 6 else 2)
    else if s[0] < 0x80 then 1
    else if s[0] < 0xE0 then 2
    else if s[0] < 0xF0 then 3
    else 4
  }

  function Symbol(s: seq<Byte>): int
    requires 1 <= Width(s) <= |s|
  {
    if s[0] == 92 then
      if s[1] == 117 then Unhex(s[2]) * 4096 + Unhex(s[3]) * 256 + Unhex(s[4]) * 16 + Unhex(s[5]) else Unescape(s[1])
    else if s[0] < 0x80 then s[0]
    else if s[0] < 0xE0 then (s[0] as int - 0xC0) * 64 + Low(s[1])
    else if s[0] < 0xF0 then (s[0] as int - 0xE0) * 4096 + Low(s[1]) * 64 + Low(s[2])
    else (s[0] as int - 0xF0) * 262144 + Low(s[1]) * 4096 + Low(s[2]) * 64 + Low(s[3])
  }

  /** The six bits of a continuation byte. */
  function Low(b: int): int {
    b - 0x80
  }

  lemma SixBits(c: Point)
    ensures c == c / 64 * 64 + c % 64
    ensures c / 64 == c / 4096 * 64 + c / 64 % 64
    ensures c / 4096 == c / 262144 * 64 + c / 4096 % 64
  {
    assert c / 64 / 64 == c / 4096;
    assert c / 4096 / 64 == c / 262144;
  }

  lemma TwoReadBack(c: Point, rest: seq<Byte>)
    requires 0x80 <= c < 0x800
    ensures var s := Utf8(c) + rest; Width(s) == |Utf8(c)| <= |s| && Symbol(s) == c
  {
    SixBits(c);
  }

  lemma ThreeReadBack(c: Point, rest: seq<Byte>)
    requires 0x800 <= c < 0x10000
    ensures var s := Utf8(c) + rest; Width(s) == |Utf8(c)| <= |s| && Symbol(s) == c
  {
    SixBits(c);
    var s := Utf8(c) + rest;
    assert Symbol(s) == (s[0] as int - 0xE0) * 4096 + Low(s[1]) * 64 + Low(s[2]);
    assert s[0] == 0xE0 + c / 4096 && s[1] == 0x80 + c / 64 % 64 && s[2] == 0x80 + c % 64;
  }

  lemma FourReadBack(c: Point, rest: seq<Byte>)
    requires 0x10000 <= c
    ensures var s := Utf8(c) + rest; Width(s) == |Utf8(c)| <= |s| && Symbol(s) == c
  {
    SixBits(c);
    var s := Utf8(c) + rest;
    assert Symbol(s) == (s[0] as int - 0xF0) * 262144 + Low(s[1]) * 4096 + Low(s[2]) * 64 + Low(s[3]);
    assert s[0] == 0xF0 + c / 262144 && s[1] == 0x80 + c / 4096 % 64
           && s[2] == 0x80 + c / 64 % 64 && s[3] == 0x80 + c % 64;
  }

  lemma Utf8ReadsBack(c: Point, rest: seq<Byte>)
    requires c != 92
    ensures var s := Utf8(c) + rest; Width(s) == |Utf8(c)| <= |s| && Symbol(s) == c
  {
    if 0x80 <= c < 0x800 {
      TwoReadBack(c, rest);
    } else if 0x800 <= c < 0x10000 {
      ThreeReadBack(c, rest);
    } else if 0x10000 <= c {
      FourReadBack(c, rest);
    }
  }

  lemma UnhexHex(d: int)
    requires 0 <= d < 16
    ensures Unhex(Hex(d)) == d
  {
  }

  lemma FourDigits(c: Point)
    requires c < 0x10000
    ensures c == c / 4096 * 4096 + c / 256 % 16 * 256 + c / 16 % 16 * 16 + c % 16
  {
    var q := c / 16;
    var r := q / 16;
    assert c / 256 == r;
    assert c / 4096 == r / 16;
    assert c == 16 * q + c % 16;
    assert q == 16 * r + q % 16;
    assert r == 16 * (r / 16) + r % 16;
  }

  lemma HexReadsBack(a: Byte, b: Byte, c: Byte, d: Byte, rest: seq<Byte>)
    ensures var s := [92, 117, a, b, c, d] + rest;
            Width(s) == 6 <= |s| && Symbol(s) == Unhex(a) * 4096 + Unhex(b) * 256 + Unhex(c) * 16 + Unhex(d)
  {
    hide Unhex;
  }

  /** A symbol is read back from the front of anything it starts. */
  lemma QuoteReadsBack(c: Point, rest: seq<Byte>)
    ensures var s := Quote(c) + rest; Width(s) == |Quote(c)| <= |s| && Symbol(s) == c
    ensures Quote(c)[0] != 34
  {
    if Escape(c) != 0 {
    } else if c < 32 || 0xD800 <= c < 0xE000 {
      HexReadsBack(Hex(c / 4096), Hex(c / 256 % 16), Hex(c / 16 % 16), Hex(c % 16), rest);
      hide Unhex, Hex, Symbol, Width;
      UnhexHex(c / 4096);
      UnhexHex(c / 256 % 16);
      UnhexHex(c / 16 % 16);
      UnhexHex(c % 16);
      FourDigits(c);
    } else {
      Utf8ReadsBack(c, rest);
    }
  }

  lemma QuoteCancels(c: Point, d: Point, x: seq<Byte>, y: seq<Byte>)
    requires Quote(c) + x == Quote(d) + y
    ensures c == d && x == y
  {
    QuoteReadsBack(c, x);
    QuoteReadsBack(d, y);
    assert x == (Quote(c) + x)[|Quote(c)|..];
    assert y == (Quote(d) + y)[|Quote(d)|..];
  }

  // ---------- Unique decoding ----------

  lemma Associates(a: seq<Byte>, b: seq<Byte>, c: seq<Byte>)
    ensures (a + b) + c == a + (b + c)
  {
  }

  /** A quoted path followed by its closing quote starts with a quote only if it is empty. */
  lemma PathStarts(p: seq<Point>, x: seq<Byte>)
    requires x != [] && x[0] == 34
    ensures var s := QuoteAll(p) + x; s != [] && (s[0] == 34 <==> p == [])
    ensures p == [] ==> QuoteAll(p) + x == x
  {
    if p != [] {
      QuoteReadsBack(p[0], []);
    }
  }

  lemma {:induction false} PathCancels(p: seq<Point>, q: seq<Point>, x: seq<Byte>, y: seq<Byte>)
    requires x != [] && y != [] && x[0] == 34 && y[0] == 34 && QuoteAll(p) + x == QuoteAll(q) + y
    ensures p == q && x == y
    decreases |p|
  {
    PathStarts(p, x);
    PathStarts(q, y);
    if p != [] {
      Associates(Quote(p[0]), QuoteAll(p[1..]), x);
      Associates(Quote(q[0]), QuoteAll(q[1..]), y);
      QuoteCancels(p[0], q[0], QuoteAll(p[1..]) + x, QuoteAll(q[1..]) + y);
      PathCancels(p[1..], q[1..], x, y);
    }
  }

  lemma DigitsStart(a: string, x: seq<Byte>)
    requires (forall c <- a :: D.IsDigit(c)) && x != [] && x[0] == 93
    ensures var s := Digits(a) + x; s != [] && (s[0] == 93 <==> a == "")
    ensures a == "" ==> Digits(a) + x == x
    ensures a != "" ==> Digits(a) + x == [a[0] as int] + (Digits(a[1..]) + x)
  {
    if a != "" {
      assert D.IsDigit(a[0]);
      var first: Byte := a[0] as int;
      assert Digits(a) == [first] + Digits(a[1..]);
      hide Digits;
      Associates([first], Digits(a[1..]), x);
    }
  }

  lemma {:induction false} DigitsCancel(a: string, b: string, x: seq<Byte>, y: seq<Byte>)
    requires (forall c <- a :: D.IsDigit(c)) && (forall c <- b :: D.IsDigit(c))
    requires x != [] && y != [] && x[0] == 93 && y[0] == 93 && Digits(a) + x == Digits(b) + y
    ensures a == b && x == y
    decreases |a|
  {
    DigitsStart(a, x);
    DigitsStart(b, y);
    if a != "" {
      assert a[0] == b[0] by { assert (Digits(a) + x)[0] == (Digits(b) + y)[0]; }
      TailsEqual([a[0] as int], Digits(a[1..]) + x, Digits(b[1..]) + y);
      DigitsCancel(a[1..], b[1..], x, y);
    }
  }

  function AfterPath(n: nat, x: seq<Byte>): seq<Byte> {
    [34, 44] + (Number(n) + ([93] + x))
  }

  lemma HeaderShape(p: seq<Point>, n: nat, x: seq<Byte>)
    ensures Header(p, n) + x == [91, 34] + (QuoteAll(p) + AfterPath(n, x))
  {
    hide QuoteAll, Number;
  }

  lemma HeaderCancels(p: seq<Point>, n: nat, q: seq<Point>, m: nat, x: seq<Byte>, y: seq<Byte>)
    requires Header(p, n) + x == Header(q, m) + y
    ensures p == q && n == m && x == y
  {
    HeaderShape(p, n, x);
    HeaderShape(q, m, y);
    hide Header, QuoteAll, Digits, D.ToText;
    TailsEqual([91, 34], QuoteAll(p) + AfterPath(n, x), QuoteAll(q) + AfterPath(m, y));
    PathCancels(p, q, AfterPath(n, x), AfterPath(m, y));
    TailsEqual([34, 44], Number(n) + ([93] + x), Number(m) + ([93] + y));
    DigitsCancel(D.ToText(n), D.ToText(m), [93] + x, [93] + y);
    D.TextInjective(n, m);
    TailsEqual([93], x, y);
  }

  lemma TailsEqual(head: seq<Byte>, x: seq<Byte>, y: seq<Byte>)
    requires head + x == head + y
    ensures x == y
  {
    assert x == (head + x)[|head|..];
    assert y == (head + y)[|head|..];
  }

  lemma FrameCancels(f: File, g: File, x: seq<Byte>, y: seq<Byte>)
    requires Frame(f) + x == Frame(g) + y
    ensures f == g && x == y
  {
    Associates(Header(f.path, |f.data|), f.data, x);
    Associates(Header(g.path, |g.data|), g.data, y);
    HeaderCancels(f.path, |f.data|, g.path, |g.data|, f.data + x, g.data + y);
    assert f.data == (f.data + x)[..|f.data|] && g.data == (g.data + y)[..|g.data|];
    TailsEqual(f.data, x, y);
  }

  lemma {:induction false} StreamFromFront(files: seq<File>)
    requires files != []
    ensures Stream(files) == Frame(files[0]) + Stream(files[1..])
  {
    if |files| == 1 {
      assert files[..0] == [] && files[1..] == [];
    } else {
      var n := |files| - 1;
      StreamFromFront(files[..n]);
      assert files[..n][1..] == files[1..][..n - 1];
      Associates(Frame(files[0]), Stream(files[1..][..n - 1]), Frame(files[n]));
    }
  }

  /** Equal streams imply equal lists of paths and contents. */
  lemma {:induction false} StreamDecodesUniquely(files: seq<File>, others: seq<File>)
    requires Stream(files) == Stream(others)
    ensures files == others
    decreases |files|
  {
    if files != [] { StreamFromFront(files); }
    if others != [] { StreamFromFront(others); }
    if files != [] && others != [] {
      FrameCancels(files[0], others[0], Stream(files[1..]), Stream(others[1..]));
      StreamDecodesUniquely(files[1..], others[1..]);
    }
  }
}
