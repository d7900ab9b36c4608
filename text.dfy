/** Character and string operations of the .NET string API that the server relies on,
    restricted to what the server's inputs can contain (ASCII text). */
module Text {

  /** An octet on the wire or in a file. */
  newtype byte = x: int | 0 <= x < 256

  datatype Option<T> = None | Some(value: T)

  // ---------------------------------------------------------------------------
  // String.Split(char) and its inverse

  /** The pieces of `parts` glued back together with `sep` between neighbours. */
  function Join(parts: seq<string>, sep: char): string
    requires |parts| >= 1
  {
    if |parts| == 1 then parts[0] else parts[0] + [sep] + Join(parts[1..], sep)
  }

  /** `s.Split(sep)`: every maximal run between separators, empty runs included, so
      the result is never empty and has one piece more than `s` has separators. */
  function Split(s: string, sep: char): (r: seq<string>)
    ensures |r| >= 1
    ensures |r| == 1 <==> sep !in s
    ensures forall i :: 0 <= i < |r| ==> sep !in r[i]
    ensures Join(r, sep) == s
    decreases |s|
  {
    if |s| == 0 then [""]
    else if s[0] == sep then
      var rest := Split(s[1..], sep);
      assert s == [sep] + s[1..];
      [""] + rest
    else
      var rest := Split(s[1..], sep);
      assert s == [s[0]] + s[1..];
      assert ([[s[0]] + rest[0]] + rest[1..])[1..] == rest[1..];
      [[s[0]] + rest[0]] + rest[1..]
  }

  /** `s.Split(sep)[0]`: the prefix up to the first separator, or all of `s`. */
  function FirstPiece(s: string, sep: char): (r: string)
    ensures sep !in r
    ensures |r| <= |s| && r == s[..|r|]
    ensures |r| < |s| ==> s[|r|] == sep
  {
    var pieces := Split(s, sep);
    if |pieces| == 1 then pieces[0]
    else
      assert s == pieces[0] + [sep] + Join(pieces[1..], sep);
      pieces[0]
  }

  /** A separator-free prefix followed by a separator becomes the first piece. */
  lemma {:induction false} SplitAfterPiece(a: string, sep: char, b: string)
    requires sep !in a
    ensures Split(a + [sep] + b, sep) == [a] + Split(b, sep)
    decreases |a|
  {
    var s := a + [sep] + b;
    if |a| == 0 {
      assert s == [sep] + b;
      assert s[1..] == b;
    } else {
      assert s[0] == a[0] != sep;
      assert s[1..] == a[1..] + [sep] + b;
      SplitAfterPiece(a[1..], sep, b);
      var rest := Split(s[1..], sep);
      assert rest == [a[1..]] + Split(b, sep);
      assert rest[0] == a[1..] && rest[1..] == Split(b, sep);
      assert [a[0]] + a[1..] == a;
    }
  }

  /** Taking a text apart at its first character and putting it back. */
  lemma ConsAppend(a: string, x: string)
    requires |a| > 0
    ensures [a[0]] + (a[1..] + x) == a + x
    ensures [a[0]] + a[1..] == a
  {
    assert [a[0]] + a[1..] == a;
  }

  /** One character that is not the separator joins the first piece. */
  lemma SplitCons(c: char, s: string, sep: char)
    requires c != sep
    ensures Split([c] + s, sep) == [[c] + Split(s, sep)[0]] + Split(s, sep)[1..]
  {
    assert ([c] + s)[0] == c;
    assert ([c] + s)[1..] == s;
  }

  /** Three separator-free pieces, each followed by the separator, are the first three
      pieces whatever follows. */
  lemma LeadingPieces(a: string, b: string, c: string, rest: string, sep: char)
    requires sep !in a && sep !in b && sep !in c
    ensures var r := Split(a + [sep] + (b + [sep] + (c + [sep] + rest)), sep);
      |r| >= 4 && r[0] == a && r[1] == b && r[2] == c
  {
    SplitAfterPiece(a, sep, b + [sep] + (c + [sep] + rest));
    SplitAfterPiece(b, sep, c + [sep] + rest);
    SplitAfterPiece(c, sep, rest);
  }

  /** A separator-free prefix always opens the first piece. */
  lemma {:induction false} SplitFirstPiecePrefix(a: string, sep: char, b: string)
    requires sep !in a
    ensures Split(a + b, sep)[0] == a + Split(b, sep)[0]
    decreases |a|
  {
    if |a| > 0 {
      var tail := a[1..] + b;
      var first := Split(b, sep)[0];
      assert a + b == [a[0]] + tail;
      SplitCons(a[0], tail, sep);
      assert Split(a + b, sep)[0] == [a[0]] + Split(tail, sep)[0];
      SplitFirstPiecePrefix(a[1..], sep, b);
      assert Split(tail, sep)[0] == a[1..] + first;
      ConsAppend(a, first);
    } else {
      assert a + b == b;
      assert a + Split(b, sep)[0] == Split(b, sep)[0];
    }
  }

  /** A separator-free prefix that ends the string or is followed by a separator is
      exactly the first piece. */
  lemma SplitFirstPiece(a: string, sep: char, b: string)
    requires sep !in a
    requires b == [] || b[0] == sep
    ensures Split(a + b, sep)[0] == a
  {
    SplitFirstPiecePrefix(a, sep, b);
  }

  /** Once `s` holds a separator, text appended after it cannot change the first piece. */
  lemma {:induction false} SplitFirstPieceStable(s: string, sep: char, t: string)
    requires sep in s
    ensures Split(s + t, sep)[0] == Split(s, sep)[0]
    decreases |s|
  {
    if s[0] == sep {
      assert (s + t)[0] == sep;
    } else {
      assert (s + t)[1..] == s[1..] + t;
      assert sep in s[1..] by {
        var k :| 0 <= k < |s| && s[k] == sep;
        assert s[1..][k - 1] == sep;
      }
      SplitFirstPieceStable(s[1..], sep, t);
    }
  }

  /** Splitting undoes joining whenever no piece contains the separator. */
  lemma {:induction false} SplitJoin(parts: seq<string>, sep: char)
    requires |parts| >= 1
    requires forall i :: 0 <= i < |parts| ==> sep !in parts[i]
    ensures Split(Join(parts, sep), sep) == parts
    decreases |parts|
  {
    if |parts| > 1 {
      SplitJoin(parts[1..], sep);
      SplitAfterPiece(parts[0], sep, Join(parts[1..], sep));
      assert [parts[0]] + parts[1..] == parts;
    }
  }

  // ---------------------------------------------------------------------------
  // Case mapping (ASCII letters; the server only ever sees ASCII text)

  function UpperChar(c: char): char
  {
    if 'a' <= c <= 'z' then (c as int - 32) as char else c
  }

  function LowerChar(c: char): char
  {
    if 'A' <= c <= 'Z' then (c as int + 32) as char else c
  }

  /** `s.ToUpper()`: each letter upper-cased, everything else kept, length kept. */
  function ToUpper(s: string): (r: string)
    ensures |r| == |s|
    ensures forall i :: 0 <= i < |s| ==> r[i] == UpperChar(s[i])
  {
    seq(|s|, i requires 0 <= i < |s| => UpperChar(s[i]))
  }

  /** `s.ToLower()`: each letter lower-cased, everything else kept, length kept. */
  function ToLower(s: string): (r: string)
    ensures |r| == |s|
    ensures forall i :: 0 <= i < |s| ==> r[i] == LowerChar(s[i])
  {
    seq(|s|, i requires 0 <= i < |s| => LowerChar(s[i]))
  }

  /** Lower-casing forgets any earlier case change. */
  lemma LowerForgetsCase(s: string)
    ensures ToLower(ToUpper(s)) == ToLower(s)
    ensures ToLower(ToLower(s)) == ToLower(s)
  {
  }

  // ---------------------------------------------------------------------------
  // Trimming

  /** `s.TrimStart(c)`: the longest suffix of `s` that does not start with `c`;
      everything cut off is `c`. */
  function TrimStart(s: string, c: char): (r: string)
    ensures |r| <= |s| && r == s[|s| - |r|..]
    ensures forall i :: 0 <= i < |s| - |r| ==> s[i] == c
    ensures r != [] ==> r[0] != c
    decreases |s|
  {
    if |s| > 0 && s[0] == c then TrimStart(s[1..], c) else s
  }

  /** A text that does not start with `c` survives `TrimStart` whatever comes before it. */
  lemma {:induction false} TrimStartAppend(t: string, u: string, c: char)
    requires u != [] && u[0] != c
    ensures TrimStart(t + u, c) == TrimStart(t, c) + u
    decreases |t|
  {
    if |t| == 0 {
      assert t + u == u;
    } else if t[0] == c {
      assert (t + u)[1..] == t[1..] + u;
      TrimStartAppend(t[1..], u, c);
    }
  }

  /** The characters `char.IsWhiteSpace` accepts. */
  predicate IsWhiteSpace(c: char)
  {
    var n := c as int;
    (9 <= n <= 13) || n == 0x20 || n == 0x85 || n == 0xA0 || n == 0x1680
    || (0x2000 <= n <= 0x200A) || n == 0x2028 || n == 0x2029 || n == 0x202F
    || n == 0x205F || n == 0x3000
  }

  function TrimLeadingWhiteSpace(s: string): (r: string)
    ensures |r| <= |s| && r == s[|s| - |r|..]
    ensures forall i :: 0 <= i < |s| - |r| ==> IsWhiteSpace(s[i])
    ensures r != [] ==> !IsWhiteSpace(r[0])
    decreases |s|
  {
    if |s| > 0 && IsWhiteSpace(s[0]) then TrimLeadingWhiteSpace(s[1..]) else s
  }

  function TrimTrailingWhiteSpace(s: string): (r: string)
    ensures |r| <= |s| && r == s[..|r|]
    ensures forall i :: |r| <= i < |s| ==> IsWhiteSpace(s[i])
    ensures r != [] ==> !IsWhiteSpace(r[|r| - 1])
    decreases |s|
  {
    if |s| > 0 && IsWhiteSpace(s[|s| - 1]) then TrimTrailingWhiteSpace(s[..|s| - 1]) else s
  }

  /** `s.Trim()`: white space cut off both ends, none left at either end, and a
      string that has none there is returned unchanged. */
  function Trim(s: string): (r: string)
    ensures |r| <= |s|
    ensures r != [] ==> !IsWhiteSpace(r[0]) && !IsWhiteSpace(r[|r| - 1])
    ensures forall c :: c in r ==> c in s
    ensures s != [] && !IsWhiteSpace(s[0]) && !IsWhiteSpace(s[|s| - 1]) ==> r == s
  {
    TrimTrailingWhiteSpace(TrimLeadingWhiteSpace(s))
  }

  /** The white space `Trim` cuts from the start of `s`. */
  function LeadingWhiteSpace(s: string): (w: string)
    ensures forall i :: 0 <= i < |w| ==> IsWhiteSpace(w[i])
  {
    s[..|s| - |TrimLeadingWhiteSpace(s)|]
  }

  /** The white space `Trim` cuts from the end of `s`. */
  function TrailingWhiteSpace(s: string): (w: string)
    ensures forall i :: 0 <= i < |w| ==> IsWhiteSpace(w[i])
  {
    var t := TrimLeadingWhiteSpace(s);
    t[|TrimTrailingWhiteSpace(t)|..]
  }

  /** Trim cuts white space and nothing else, and only from the two ends. */
  lemma TrimCutsOnlyWhiteSpace(s: string)
    ensures s == LeadingWhiteSpace(s) + Trim(s) + TrailingWhiteSpace(s)
  {
    var t := TrimLeadingWhiteSpace(s);
    var r := TrimTrailingWhiteSpace(t);
    assert Trim(s) == r;
    PrefixInfixSuffix(s, t, r);
  }

  /** A text is the part before a suffix `t`, a prefix `r` of `t`, and the rest of `t`. */
  lemma PrefixInfixSuffix(s: string, t: string, r: string)
    requires |t| <= |s| && t == s[|s| - |t|..]
    requires |r| <= |t| && r == t[..|r|]
    ensures s == s[..|s| - |t|] + r + t[|r|..]
  {
    assert s == s[..|s| - |t|] + t;
    assert t == r + t[|r|..];
  }

  /** Trimming removes the carriage return that ends a line of CRLF-terminated text. */
  lemma TrimDropsCarriageReturn(s: string)
    requires s != [] && !IsWhiteSpace(s[0]) && !IsWhiteSpace(s[|s| - 1])
    ensures Trim(s + "\r") == s
  {
    var t := s + "\r";
    assert TrimLeadingWhiteSpace(t) == t by {
      assert t[0] == s[0];
    }
    assert t[..|t| - 1] == s;
    assert TrimTrailingWhiteSpace(t) == TrimTrailingWhiteSpace(s);
  }

  // ---------------------------------------------------------------------------
  // Decimal numbers

  predicate IsDigit(c: char)
  {
    '0' <= c <= '9'
  }

  function DigitChar(d: nat): (c: char)
    requires d < 10
    ensures IsDigit(c)
  {
    ('0' as int + d) as char
  }

  function DigitValue(c: char): nat
    requires IsDigit(c)
  {
    c as int - '0' as int
  }

  /** The value of a string of decimal digits, most significant first. */
  function DigitsValue(s: string): nat
    requires forall i :: 0 <= i < |s| ==> IsDigit(s[i])
  {
    if |s| == 0 then 0 else DigitsValue(s[..|s| - 1]) * 10 + DigitValue(s[|s| - 1])
  }

  /** How `{n}` renders a non-negative integer in an interpolated string: its
      decimal digits, without leading zeros. */
  function NatToString(n: nat): (r: string)
    ensures |r| >= 1
    ensures forall i :: 0 <= i < |r| ==> IsDigit(r[i])
    ensures r[0] == '0' ==> n == 0
  {
    if n < 10 then [DigitChar(n)] else NatToString(n / 10) + [DigitChar(n % 10)]
  }

  /** Reading the digits back gives the number that was written. */
  lemma {:induction false} DigitsValueOfNatToString(n: nat)
    ensures DigitsValue(NatToString(n)) == n
  {
    var s := NatToString(n);
    if n >= 10 {
      DigitsValueOfNatToString(n / 10);
      assert s[..|s| - 1] == NatToString(n / 10);
    }
  }

  const Int32Min: int := -0x8000_0000
  const Int32Max: int := 0x7FFF_FFFF

  /** White space the integer parser skips around the number: U+0009 to U+000D and the space. */
  predicate IsNumberWhiteSpace(c: char)
  {
    (9 <= c as int <= 13) || c == ' '
  }

  /** The text after the number white space that opens it. */
  function SkipNumberWhiteSpace(s: string): (r: string)
    ensures |r| <= |s| && r == s[|s| - |r|..]
    ensures forall i :: 0 <= i < |s| - |r| ==> IsNumberWhiteSpace(s[i])
    ensures r != [] ==> !IsNumberWhiteSpace(r[0])
    decreases |s|
  {
    if |s| > 0 && IsNumberWhiteSpace(s[0]) then SkipNumberWhiteSpace(s[1..]) else s
  }

  /** The text before the number white space that closes it. */
  function DropNumberWhiteSpaceAtEnd(s: string): (r: string)
    ensures |r| <= |s| && r == s[..|r|]
    ensures forall i :: |r| <= i < |s| ==> IsNumberWhiteSpace(s[i])
    ensures r != [] ==> !IsNumberWhiteSpace(r[|r| - 1])
    decreases |s|
  {
    if |s| > 0 && IsNumberWhiteSpace(s[|s| - 1]) then DropNumberWhiteSpaceAtEnd(s[..|s| - 1]) else s
  }

  /** `int.TryParse(s, out v)` with the default integer style: optional surrounding
      white space, an optional `+` or `-`, one or more digits, and a value that fits
      a 32-bit signed integer. `None` is the `false` return, after which the out
      variable holds 0. */
  function TryParseInt32(s: string): (r: Option<int>)
    ensures r.Some? ==> Int32Min <= r.value <= Int32Max
  {
    ParseSignedDigits(DropNumberWhiteSpaceAtEnd(SkipNumberWhiteSpace(s)))
  }

  /** The number itself, once the surrounding white space is gone: an optional sign,
      then one or more digits whose value fits 32 bits. */
  function ParseSignedDigits(t: string): (r: Option<int>)
    ensures r.Some? ==> Int32Min <= r.value <= Int32Max
  {
    if |t| > 0 && (t[0] == '-' || t[0] == '+') then DigitsNumber(t[1..], t[0] == '-')
    else DigitsNumber(t, false)
  }

  /** One or more digits, negated when `negative`, if the value fits 32 bits. */
  function DigitsNumber(digits: string, negative: bool): (r: Option<int>)
    ensures r.Some? ==> Int32Min <= r.value <= Int32Max
    ensures r.Some? ==> |digits| >= 1 && forall i :: 0 <= i < |digits| ==> IsDigit(digits[i])
  {
    if |digits| == 0 || exists i :: 0 <= i < |digits| && !IsDigit(digits[i]) then None
    else
      var v: int := if negative then 0 - DigitsValue(digits) as int else DigitsValue(digits);
      if Int32Min <= v <= Int32Max then Some(v) else None
  }

  /** Number white space never cuts into a text that starts and ends with digits. */
  lemma DigitsNotNumberWhiteSpace(s: string)
    requires |s| >= 1 && IsDigit(s[0]) && IsDigit(s[|s| - 1])
    ensures SkipNumberWhiteSpace(s) == s
    ensures DropNumberWhiteSpaceAtEnd(s) == s
  {
  }

  /** A plain string of digits parses to its value when that fits. */
  lemma TryParseInt32OfDigits(s: string)
    requires |s| >= 1 && forall i :: 0 <= i < |s| ==> IsDigit(s[i])
    requires DigitsValue(s) <= Int32Max
    ensures TryParseInt32(s) == Some(DigitsValue(s) as int)
  {
    DigitsNotNumberWhiteSpace(s);
    var t := DropNumberWhiteSpaceAtEnd(SkipNumberWhiteSpace(s));
    assert t == s;
    assert !(t[0] == '-' || t[0] == '+');
  }

  /** `int.TryParse` fails on the empty text, on a text whose character after an
      opening sign is not a digit, and on digits whose value exceeds `Int32.MaxValue`. */
  lemma TryParseInt32Fails(s: string)
    ensures TryParseInt32("") == None
    ensures |s| >= 2 && (s[0] == '+' || s[0] == '-') && !IsDigit(s[1]) && !IsNumberWhiteSpace(s[1]) ==>
              TryParseInt32(s) == None
    ensures |s| >= 1 && (forall i :: 0 <= i < |s| ==> IsDigit(s[i])) && DigitsValue(s) > Int32Max ==>
              TryParseInt32(s) == None
  {
    assert SkipNumberWhiteSpace("") == "";
    if |s| >= 2 && (s[0] == '+' || s[0] == '-') && !IsDigit(s[1]) && !IsNumberWhiteSpace(s[1]) {
      SignThenNonDigit(s);
    }
    if |s| >= 1 && (forall i :: 0 <= i < |s| ==> IsDigit(s[i])) && DigitsValue(s) > Int32Max {
      DigitsOverflow(s);
    }
  }

  lemma SignThenNonDigit(s: string)
    requires |s| >= 2 && (s[0] == '+' || s[0] == '-') && !IsDigit(s[1]) && !IsNumberWhiteSpace(s[1])
    ensures TryParseInt32(s) == None
  {
    assert SkipNumberWhiteSpace(s) == s;
    TrimKeepsFirstTwo(s);
    SignedNonDigit(DropNumberWhiteSpaceAtEnd(s));
  }

  /** Trimming trailing white space keeps a second character that is not white space. */
  lemma TrimKeepsFirstTwo(s: string)
    requires |s| >= 2 && !IsNumberWhiteSpace(s[1])
    ensures var t := DropNumberWhiteSpaceAtEnd(s); |t| >= 2 && t[0] == s[0] && t[1] == s[1]
  {
    var t := DropNumberWhiteSpaceAtEnd(s);
    assert |t| >= 2;
  }

  lemma SignedNonDigit(t: string)
    requires |t| >= 2 && (t[0] == '+' || t[0] == '-') && !IsDigit(t[1])
    ensures ParseSignedDigits(t) == None
  {
    var digits := t[1..];
    assert digits[0] == t[1];
  }

  lemma DigitsOverflow(s: string)
    requires |s| >= 1 && forall i :: 0 <= i < |s| ==> IsDigit(s[i])
    requires DigitsValue(s) > Int32Max
    ensures TryParseInt32(s) == None
  {
    DigitsNotNumberWhiteSpace(s);
    var t := DropNumberWhiteSpaceAtEnd(SkipNumberWhiteSpace(s));
    assert t == s;
    assert !(t[0] == '-' || t[0] == '+');
  }

  /** A number the server writes with `NatToString` is read back by `TryParseInt32`. */
  lemma TryParseInt32OfNatToString(n: nat)
    requires n <= Int32Max
    ensures TryParseInt32(NatToString(n)) == Some(n)
  {
    DigitsValueOfNatToString(n);
    TryParseInt32OfDigits(NatToString(n));
  }

  // ---------------------------------------------------------------------------
  // Encoding.ASCII

  const QuestionMark: byte := 63

  /** `Encoding.ASCII.GetBytes(s)`: one byte per character, `?` for anything
      outside ASCII. */
  function AsciiBytes(s: string): (r: seq<byte>)
    ensures |r| == |s|
    ensures forall i :: 0 <= i < |s| ==> r[i] as int == (if s[i] as int < 128 then s[i] as int else 63)
  {
    seq(|s|, i requires 0 <= i < |s| => if s[i] as int < 128 then s[i] as int as byte else QuestionMark)
  }

  /** `Encoding.ASCII.GetString(b)`: one character per byte, `?` for bytes above 127. */
  function AsciiString(b: seq<byte>): (r: string)
    ensures |r| == |b|
    ensures forall i :: 0 <= i < |b| ==> r[i] as int == (if b[i] < 128 then b[i] as int else 63)
  {
    seq(|b|, i requires 0 <= i < |b| => if b[i] < 128 then b[i] as int as char else '?')
  }

  /** Decoding then encoding is the identity on ASCII bytes. */
  lemma AsciiRoundTrip(b: seq<byte>)
    requires forall i :: 0 <= i < |b| ==> b[i] < 128
    ensures AsciiBytes(AsciiString(b)) == b
  {
  }
}
