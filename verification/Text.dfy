/**
 Strings as the registry's JavaScript sees them: the order of `<` on strings, joining, decimal
 printing, UTF-8 and percent-encoding. A `char` is one Unicode scalar value.
 */
module Text {

  type byte = b: int | 0 <= b < 256

  datatype Option<+T> = None | Some(value: T)

  /******* The order of strings *******/

  /** Places a character among the others as its UTF-16 code units do: the supplementary planes
      (lead units from 0xD800 on) come before the last block of the basic plane. */
  function CharRank(c: char): int {
    var n := c as int;
    if n < 0xD800 then n else if n < 0x10000 then n + 0x200000 else n
  }

  predicate Less(a: string, b: string) {
    b != "" &&
    (a == "" ||
     (if a[0] == b[0] then Less(a[1..], b[1..]) else CharRank(a[0]) < CharRank(b[0])))
  }

  /** A string's UTF-16 code units. */
  function Utf16(s: string): seq<int> { if s == "" then [] else Utf16Char(s[0]) + Utf16(s[1..]) }

  function Utf16Char(c: char): seq<int> {
    var n := c as int;
    if n < 0x10000 then [n] else [0xD800 + (n - 0x10000) / 0x400, 0xDC00 + (n - 0x10000) % 0x400]
  }

  /** The order of two sequences at the first place they differ; a prefix comes first. */
  predicate UnitsLess(a: seq<int>, b: seq<int>) {
    b != [] && (a == [] || a[0] < b[0] || (a[0] == b[0] && UnitsLess(a[1..], b[1..])))
  }

  lemma UnitsLessCons(n: int, a: seq<int>, b: seq<int>)
    ensures UnitsLess([n] + a, [n] + b) <==> UnitsLess(a, b)
  {
    assert ([n] + a)[1..] == a && ([n] + b)[1..] == b;
  }

  lemma UnitsLessHead(m: int, a: seq<int>, n: int, b: seq<int>)
    requires m != n
    ensures UnitsLess([m] + a, [n] + b) <==> m < n
  {
  }

  lemma SameHeadUnits(c: char, a: seq<int>, b: seq<int>)
    ensures UnitsLess(Utf16Char(c) + a, Utf16Char(c) + b) <==> UnitsLess(a, b)
  {
    var u := Utf16Char(c);
    if |u| == 1 {
      UnitsLessCons(u[0], a, b);
    } else {
      assert u + a == [u[0]] + ([u[1]] + a) && u + b == [u[0]] + ([u[1]] + b);
      UnitsLessCons(u[0], [u[1]] + a, [u[1]] + b);
      UnitsLessCons(u[1], a, b);
    }
  }

  lemma OtherHeadUnits(c: char, a: seq<int>, d: char, b: seq<int>)
    requires c != d
    ensures UnitsLess(Utf16Char(c) + a, Utf16Char(d) + b) <==> CharRank(c) < CharRank(d)
  {
    var u, v := Utf16Char(c), Utf16Char(d);
    var x, y := u[1..] + a, v[1..] + b;
    assert u + a == [u[0]] + x && v + b == [v[0]] + y;
    if u[0] != v[0] {
      UnitsLessHead(u[0], x, v[0], y);
    } else {
      assert |u| == 2 && |v| == 2 && x == [u[1]] + a && y == [v[1]] + b;
      UnitsLessCons(u[0], x, y);
      UnitsLessHead(u[1], a, v[1], b);
    }
  }

  /** The order of strings is that of their UTF-16 code units, one by one. */
  lemma {:induction false} LessIsUtf16(a: string, b: string)
    ensures Less(a, b) <==> UnitsLess(Utf16(a), Utf16(b))
  {
    hide CharRank, Utf16Char;
    if a != "" && b != "" {
      if a[0] == b[0] {
        SameHeadUnits(a[0], Utf16(a[1..]), Utf16(b[1..]));
        LessIsUtf16(a[1..], b[1..]);
      } else {
        OtherHeadUnits(a[0], Utf16(a[1..]), b[0], Utf16(b[1..]));
      }
    } else {
      UnitsOfAny(a);
      UnitsOfAny(b);
    }
  }

  lemma UnitsOfAny(s: string)
    ensures Utf16(s) == [] <==> s == ""
  {
  }

  lemma {:induction false} LessTransitive(a: string, b: string, c: string)
    requires Less(a, b) && Less(b, c)
    ensures Less(a, c)
  {
    if a != "" && a[0] == b[0] == c[0] {
      LessTransitive(a[1..], b[1..], c[1..]);
    }
  }

  lemma {:induction false} LessTrichotomy(a: string, b: string)
    ensures Less(a, b) || Less(b, a) || a == b
    ensures !(Less(a, b) && Less(b, a))
    ensures !Less(a, a)
  {
    if a != "" && b != "" && a[0] == b[0] {
      LessTrichotomy(a[1..], b[1..]);
      assert a == [a[0]] + a[1..] && b == [b[0]] + b[1..];
    }
    if a != "" {
      LessTrichotomy(a[1..], a[1..]);
    }
  }

  ghost predicate Ascending(s: seq<string>) {
    forall i, j :: 0 <= i < j < |s| ==> Less(s[i], s[j])
  }

  ghost predicate Lists(s: seq<string>, names: set<string>) {
    Ascending(s) && forall n :: n in s <==> n in names
  }

  lemma {:induction false} LeastExists(names: set<string>) returns (least: string)
    requires names != {}
    ensures least in names
    ensures forall n :: n in names && n != least ==> Less(least, n)
  {
    var first :| first in names;
    var rest := names - {first};
    assert forall n :: n in names ==> n == first || n in rest;
    least := first;
    if rest != {} {
      var other := LeastExists(rest);
      LessTrichotomy(first, other);
      if Less(other, first) {
        least := other;
      } else {
        forall n | n in names && n != first ensures Less(first, n) {
          if n != other {
            assert n in rest;
            LessTransitive(first, other, n);
          }
        }
      }
    }
  }

  /** The names in ascending order, each once. */
  ghost function Sorted(names: set<string>): (s: seq<string>)
    ensures Lists(s, names)
  {
    if names == {} then []
    else
      assert exists l :: l in names && forall n :: n in names && n != l ==> Less(l, n) by {
        var l := LeastExists(names);
      }
      var least :| least in names && forall n :: n in names && n != least ==> Less(least, n);
      [least] + Sorted(names - {least})
  }

  /** The order is total, so a set has one ascending listing. */
  lemma {:induction false} ListingUnique(a: seq<string>, b: seq<string>, names: set<string>)
    requires Lists(a, names) && Lists(b, names)
    ensures a == b
  {
    assert a != [] ==> a[0] in names;
    assert b != [] ==> b[0] in names;
    if names != {} {
      var n :| n in names;
      assert n in a && n in b;
      assert a[0] in b && b[0] in a;
      LessTrichotomy(a[0], b[0]);
      assert a[0] == b[0];
      ListingTail(a, names);
      ListingTail(b, names);
      ListingUnique(a[1..], b[1..], names - {a[0]});
    }
  }

  lemma ListingTail(a: seq<string>, names: set<string>)
    requires Lists(a, names) && a != []
    ensures Lists(a[1..], names - {a[0]})
  {
    LessTrichotomy(a[0], a[0]);
    forall n ensures n in a[1..] <==> n in names - {a[0]} {
      if n in a[1..] {
        var i :| 0 <= i < |a| - 1 && a[1..][i] == n;
        assert a[i + 1] == n && Less(a[0], a[i + 1]);
      }
      if n in names - {a[0]} {
        var i :| 0 <= i < |a| && a[i] == n;
        assert a[1..][i - 1] == n;
      }
    }
  }

  /** Selection of the least name, over and over: what a library sort of distinct names answers. */
  method Sort(names: set<string>) returns (s: seq<string>)
    ensures s == Sorted(names)
  {
    s := [];
    var rest := names;
    while rest != {}
      invariant rest <= names
      invariant Lists(s, names - rest)
      invariant forall a, b :: a in names - rest && b in rest ==> Less(a, b)
      decreases rest
    {
      ghost var l := LeastExists(rest);
      var least :| least in rest && forall n :: n in rest && n != least ==> Less(least, n);
      s := s + [least];
      rest := rest - {least};
    }
    assert names - rest == names;
    ListingUnique(s, Sorted(names), names);
  }

  /******* Joining *******/

  function Join(parts: seq<string>, sep: char): string {
    if parts == [] then ""
    else if |parts| == 1 then parts[0]
    else parts[0] + [sep] + Join(parts[1..], sep)
  }

  predicate Without(s: string, c: char) { c !in s }

  ghost predicate AllWithout(parts: seq<string>, c: char) {
    forall i :: 0 <= i < |parts| ==> Without(parts[i], c)
  }

  lemma FirstSeparator(a: string, x: string, sep: char)
    requires Without(a, sep)
    ensures var l := a + [sep] + x;
      l[|a|] == sep && l[..|a|] == a && l[|a| + 1..] == x && forall i :: 0 <= i < |a| ==> l[i] != sep
  {
    var l := a + [sep] + x;
    assert forall i :: 0 <= i < |a| ==> l[i] == a[i];
  }

  /** The text up to the first separator, and the text after it, are determined by the whole. */
  lemma HeadUnique(a: string, x: string, b: string, y: string, sep: char)
    requires Without(a, sep) && Without(b, sep)
    requires a + [sep] + x == b + [sep] + y
    ensures a == b && x == y
  {
    FirstSeparator(a, x, sep);
    FirstSeparator(b, y, sep);
  }

  /** Joining loses nothing when no part holds the separator: the number of parts and every part
      come back. */
  lemma {:induction false} JoinInjective(a: seq<string>, b: seq<string>, sep: char)
    requires a != [] && b != []
    requires AllWithout(a, sep) && AllWithout(b, sep)
    requires Join(a, sep) == Join(b, sep)
    ensures a == b
  {
    if |a| == 1 && |b| == 1 {
    } else if |a| == 1 {
      JoinHasSeparator(b, sep);
    } else if |b| == 1 {
      JoinHasSeparator(a, sep);
    } else {
      HeadUnique(a[0], Join(a[1..], sep), b[0], Join(b[1..], sep), sep);
      JoinInjective(a[1..], b[1..], sep);
      assert a == [a[0]] + a[1..] && b == [b[0]] + b[1..];
    }
  }

  /** A separator between each two parts and no other. */
  lemma {:induction false} JoinSnoc(parts: seq<string>, last: string, sep: char)
    ensures Join(parts + [last], sep) == if parts == [] then last else Join(parts, sep) + [sep] + last
  {
    var all := parts + [last];
    if |parts| == 1 {
      assert all[1..] == [last];
    } else if |parts| > 1 {
      JoinSnoc(parts[1..], last, sep);
      assert all[1..] == parts[1..] + [last];
    }
  }

  lemma JoinHasSeparator(parts: seq<string>, sep: char)
    requires |parts| > 1
    ensures sep in Join(parts, sep)
  {
    assert Join(parts, sep)[|parts[0]|] == sep;
  }

  lemma {:induction false} JoinWithout(parts: seq<string>, sep: char, c: char)
    requires AllWithout(parts, c) && sep != c
    ensures Without(Join(parts, sep), c)
  {
    if |parts| > 1 {
      JoinWithout(parts[1..], sep, c);
    }
  }

  /******* Decimal printing *******/

  function DigitChar(d: int): char
    requires 0 <= d < 10
  { '0' + d as char }

  predicate IsDigit(c: char) { '0' <= c <= '9' }

  function Digits(n: nat): string {
    if n < 10 then [DigitChar(n)] else Digits(n / 10) + [DigitChar(n % 10)]
  }

  /** `String(i)` of a whole number. */
  function Dec(i: int): string { if i < 0 then "-" + Digits(-i) else Digits(i) }

  function ReadDigits(s: string): int {
    if s == "" then 0 else 10 * ReadDigits(s[..|s| - 1]) + (s[|s| - 1] as int - '0' as int)
  }

  lemma {:induction false} DigitsRead(n: nat)
    ensures ReadDigits(Digits(n)) == n
    ensures Digits(n) != "" && forall i :: 0 <= i < |Digits(n)| ==> IsDigit(Digits(n)[i])
  {
    if n < 10 {
      assert Digits(n)[..0] == "";
    } else {
      DigitsRead(n / 10);
      var s := Digits(n);
      assert s[..|s| - 1] == Digits(n / 10);
    }
  }

  /** No digits more than the number needs. */
  lemma {:induction false} DigitsShortest(n: nat)
    ensures Digits(n)[0] == '0' <==> n == 0
    ensures n < 10 <==> |Digits(n)| == 1
    ensures Dec(n) == Digits(n) && (n > 0 ==> Dec(0 - n) == "-" + Digits(n))
  {
    DigitsRead(n);
    if n >= 10 {
      DigitsRead(n / 10);
      DigitsShortest(n / 10);
    }
  }

  predicate DecChar(c: char) { IsDigit(c) || c == '-' }

  function ReadDec(s: string): int {
    if s != "" && s[0] == '-' then -ReadDigits(s[1..]) else ReadDigits(s)
  }

  lemma DecRead(i: int)
    ensures ReadDec(Dec(i)) == i
    ensures Dec(i) != "" && forall k :: 0 <= k < |Dec(i)| ==> DecChar(Dec(i)[k])
  {
    DigitsRead(if i < 0 then -i else i);
    if i < 0 {
      assert Dec(i)[1..] == Digits(-i);
    } else {
      assert IsDigit(Digits(i)[0]);
    }
  }

  lemma DecInjective(i: int, j: int)
    requires Dec(i) == Dec(j)
    ensures i == j
  {
    DecRead(i);
    DecRead(j);
  }

  /******* UTF-8 (section 3 of RFC 3629) *******/

  function Utf8Char(c: char): (r: seq<byte>)
    ensures 1 <= |r| <= 4
  {
    var n := c as int;
    if n < 0x80 then [n]
    else if n < 0x800 then [0xC0 + n / 64, 0x80 + n % 64]
    else if n < 0x10000 then [0xE0 + n / 4096, 0x80 + (n / 64) % 64, 0x80 + n % 64]
    else [0xF0 + n / 262144, 0x80 + (n / 4096) % 64, 0x80 + (n / 64) % 64, 0x80 + n % 64]
  }

  function Utf8(s: string): seq<byte> {
    if s == "" then [] else Utf8Char(s[0]) + Utf8(s[1..])
  }

  predicate Continuation(b: byte) { 0x80 <= b < 0xC0 }

  function Low6(b: byte): int { b - 0x80 }

  function Scalar(n: int, width: nat): Option<(char, nat)> {
    if 0 <= n < 0xD800 || 0xE000 <= n < 0x11_0000 then Some((n as char, width)) else None
  }

  /** The first character of well-formed UTF-8 and the number of bytes it takes. */
  function Utf8First(b: seq<byte>): Option<(char, nat)>
    requires b != []
    ensures Utf8First(b).Some? ==> 1 <= Utf8First(b).value.1 <= |b|
  {
    var b0: int := b[0];
    if b0 < 0x80 then Some((b0 as char, 1))
    else if 0xC0 <= b0 < 0xE0 && |b| >= 2 && Continuation(b[1]) then
      Scalar((b0 - 0xC0) * 64 + Low6(b[1]), 2)
    else if 0xE0 <= b0 < 0xF0 && |b| >= 3 && Continuation(b[1]) && Continuation(b[2]) then
      Scalar((b0 - 0xE0) * 4096 + Low6(b[1]) * 64 + Low6(b[2]), 3)
    else if 0xF0 <= b0 < 0xF8 && |b| >= 4 && Continuation(b[1]) && Continuation(b[2]) && Continuation(b[3]) then
      Scalar((b0 - 0xF0) * 262144 + Low6(b[1]) * 4096 + Low6(b[2]) * 64 + Low6(b[3]), 4)
    else None
  }

  function Utf8Decode(b: seq<byte>): Option<string> {
    if b == [] then Some("")
    else
      match Utf8First(b)
      case None => None
      case Some((c, k)) =>
        match Utf8Decode(b[k..])
        case None => None
        case Some(rest) => Some([c] + rest)
  }

  lemma SixBitGroups(n: nat)
    ensures n == n / 64 * 64 + n % 64
    ensures n == n / 4096 * 4096 + n / 64 % 64 * 64 + n % 64
    ensures n == n / 262144 * 262144 + n / 4096 % 64 * 4096 + n / 64 % 64 * 64 + n % 64
  {
    assert n / 64 / 64 == n / 4096 && n / 4096 / 64 == n / 262144;
  }

  lemma Utf8FirstOfChar(c: char, rest: seq<byte>)
    ensures Utf8First(Utf8Char(c) + rest) == Some((c, |Utf8Char(c)|))
  {
    var e := Utf8Char(c);
    var b := e + rest;
    assert forall i :: 0 <= i < |e| ==> b[i] == e[i];
    SixBitGroups(c as int);
  }

  lemma {:induction false} Utf8RoundTrip(s: string)
    ensures Utf8Decode(Utf8(s)) == Some(s)
  {
    if s != "" {
      var b := Utf8(s);
      Utf8FirstOfChar(s[0], Utf8(s[1..]));
      assert b[|Utf8Char(s[0])|..] == Utf8(s[1..]);
      Utf8RoundTrip(s[1..]);
      assert s == [s[0]] + s[1..];
    }
  }

  /** The encodings of section 7 of RFC 3629 and of one supplementary character. */
  lemma Utf8Vectors()
    ensures Utf8("A") == [0x41] && Utf8Char('\U{2262}') == [0xE2, 0x89, 0xA2] && Utf8Char('\U{0391}') == [0xCE, 0x91]
    ensures Utf8Char('\U{D55C}') == [0xED, 0x95, 0x9C] && Utf8Char('\U{233B4}') == [0xF0, 0xA3, 0x8E, 0xB4]
  {
    assert "A"[1..] == "";
  }

  /******* Percent-encoding (section 2.1 of RFC 3986) *******/

  function HexChar(d: int): char
    requires 0 <= d < 16
  { if d < 10 then '0' + d as char else 'A' + (d - 10) as char }

  predicate IsUpperHex(c: char) { IsDigit(c) || 'A' <= c <= 'F' }

  function HexVal(c: char): int {
    if IsDigit(c) then c as int - '0' as int
    else if 'A' <= c <= 'F' then c as int - 'A' as int + 10
    else if 'a' <= c <= 'f' then c as int - 'a' as int + 10
    else 0
  }

  function Escape(b: byte): string { ['%', HexChar(b / 16), HexChar(b % 16)] }

  function EscapeAll(b: seq<byte>): string {
    if b == [] then "" else Escape(b[0]) + EscapeAll(b[1..])
  }

  /** Every character `keep` does not keep becomes the escapes of its UTF-8 bytes. */
  function Percent(s: string, keep: char -> bool): string {
    if s == "" then ""
    else (if keep(s[0]) then [s[0]] else EscapeAll(Utf8Char(s[0]))) + Percent(s[1..], keep)
  }

  function HexPair(a: char, b: char): byte { (16 * HexVal(a) + HexVal(b)) % 256 }

  function Unescape(enc: string): seq<byte> {
    if enc == "" then []
    else if enc[0] == '%' && |enc| > 2 then [HexPair(enc[1], enc[2])] + Unescape(enc[3..])
    else [enc[0] as int % 256] + Unescape(enc[1..])
  }

  /** What is kept is ASCII and never '%': true of both encoders of the registry. */
  ghost predicate KeepsAscii(keep: char -> bool) {
    forall c :: keep(c) ==> c as int < 0x80 && c != '%'
  }

  lemma EscapeRead(b: byte, rest: string)
    ensures Unescape(Escape(b) + rest) == [b] + Unescape(rest)
  {
    var enc := Escape(b) + rest;
    assert enc[0] == '%' && enc[1] == HexChar(b / 16) && enc[2] == HexChar(b % 16);
    assert HexVal(HexChar(b / 16)) == b / 16 && HexVal(HexChar(b % 16)) == b % 16;
    assert enc[3..] == rest;
  }

  lemma {:induction false} UnescapeEscapes(b: seq<byte>, rest: string)
    ensures Unescape(EscapeAll(b) + rest) == b + Unescape(rest)
  {
    if b == [] {
      assert EscapeAll(b) + rest == rest;
    } else {
      calc {
        Unescape(EscapeAll(b) + rest);
        { assert EscapeAll(b) + rest == Escape(b[0]) + (EscapeAll(b[1..]) + rest); }
        Unescape(Escape(b[0]) + (EscapeAll(b[1..]) + rest));
        { EscapeRead(b[0], EscapeAll(b[1..]) + rest); }
        [b[0]] + Unescape(EscapeAll(b[1..]) + rest);
        { UnescapeEscapes(b[1..], rest); }
        [b[0]] + (b[1..] + Unescape(rest));
        b + Unescape(rest);
      }
    }
  }

  lemma {:induction false} UnescapePercent(s: string, keep: char -> bool)
    requires KeepsAscii(keep)
    ensures Unescape(Percent(s, keep)) == Utf8(s)
  {
    if s != "" {
      UnescapePercent(s[1..], keep);
      var tail := Percent(s[1..], keep);
      if keep(s[0]) {
        assert ([s[0]] + tail)[1..] == tail;
      } else {
        UnescapeEscapes(Utf8Char(s[0]), tail);
      }
    }
  }

  /** Percent-encoding is undone by unescaping and reading UTF-8, whatever set is kept. */
  lemma PercentRoundTrip(s: string, keep: char -> bool)
    requires KeepsAscii(keep)
    ensures Utf8Decode(Unescape(Percent(s, keep))) == Some(s)
  {
    UnescapePercent(s, keep);
    Utf8RoundTrip(s);
  }

  lemma PercentInjective(s: string, t: string, keep: char -> bool)
    requires KeepsAscii(keep)
    requires Percent(s, keep) == Percent(t, keep)
    ensures s == t
  {
    PercentRoundTrip(s, keep);
    PercentRoundTrip(t, keep);
  }

  /** An escape is '%' and the two digits of the byte, upper case. */
  lemma EscapeSpelled(b: byte)
    ensures Escape(b) == ['%', "0123456789ABCDEF"[b / 16], "0123456789ABCDEF"[b % 16]]
  {
  }

  /** What is kept is printed as it stands. */
  lemma {:induction false} PercentKeeps(s: string, keep: char -> bool)
    requires forall i :: 0 <= i < |s| ==> keep(s[i])
    ensures Percent(s, keep) == s
  {
    if s != "" {
      PercentKeeps(s[1..], keep);
      assert s == [s[0]] + s[1..];
    }
  }

  lemma EscapedLonger(c: char)
    ensures |EscapeAll(Utf8Char(c))| >= 3
  {
    hide Utf8Char;
    assert EscapeAll(Utf8Char(c)) == Escape(Utf8Char(c)[0]) + EscapeAll(Utf8Char(c)[1..]);
  }

  lemma {:induction false} PercentNoShorter(s: string, keep: char -> bool)
    ensures |Percent(s, keep)| >= |s|
  {
    hide Utf8Char;
    if s != "" {
      EscapedLonger(s[0]);
      PercentNoShorter(s[1..], keep);
    }
  }

  lemma {:induction false} PercentGrows(s: string, keep: char -> bool, i: nat)
    requires i < |s| && !keep(s[i])
    ensures |Percent(s, keep)| > |s|
  {
    hide Utf8Char;
    EscapedLonger(s[0]);
    if i > 0 { PercentGrows(s[1..], keep, i - 1); } else { PercentNoShorter(s[1..], keep); }
  }

  /** A text is printed as it stands exactly when all of it is kept. */
  lemma PercentPlainIff(s: string, keep: char -> bool)
    ensures (forall i :: 0 <= i < |s| ==> keep(s[i])) <==> Percent(s, keep) == s
  {
    if forall i :: 0 <= i < |s| ==> keep(s[i]) {
      PercentKeeps(s, keep);
    } else {
      var i :| 0 <= i < |s| && !keep(s[i]);
      PercentGrows(s, keep, i);
    }
  }

  lemma {:induction false} EscapeAllChars(b: seq<byte>)
    ensures forall i :: 0 <= i < |EscapeAll(b)| ==> EscapeAll(b)[i] == '%' || IsUpperHex(EscapeAll(b)[i])
  {
    if b != [] { EscapeAllChars(b[1..]); }
  }

  lemma {:induction false} PercentChars(s: string, keep: char -> bool)
    ensures forall i :: 0 <= i < |Percent(s, keep)| ==>
      var c := Percent(s, keep)[i]; keep(c) || c == '%' || IsUpperHex(c)
  {
    if s != "" {
      PercentChars(s[1..], keep);
      EscapeAllChars(Utf8Char(s[0]));
    }
  }
}
