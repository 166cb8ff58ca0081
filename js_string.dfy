/** The string operations the handlers use: the two orders strings are
    compared in (MongoDB's, by code point, for `$lte`, `$gte` and sorting, and
    JavaScript's `<` and `>`, by UTF-16 code unit), `trim`, `split` on a single
    separator and `padStart`. */
module JsString {

  // ---------------------------------------------------------------------------
  // Code point order (MongoDB's binary comparison of UTF-8 strings)
  // ---------------------------------------------------------------------------

  /** `a <= b` by code points, left to right; a proper prefix comes first.
      UTF-8 byte order is code point order, so this is the order the store's
      range operators and sorts use on strings. */
  predicate LexLe(a: string, b: string) {
    if a == [] then true
    else if b == [] then false
    else if a[0] != b[0] then a[0] < b[0]
    else LexLe(a[1..], b[1..])
  }

  /** `a < b` by code points. */
  predicate LexLt(a: string, b: string) {
    LexLe(a, b) && a != b
  }

  lemma {:induction false} LexLeReflexive(a: string)
    ensures LexLe(a, a)
  {
    if a != [] {
      LexLeReflexive(a[1..]);
    }
  }

  lemma {:induction false} LexLeAntisymmetric(a: string, b: string)
    requires LexLe(a, b) && LexLe(b, a)
    ensures a == b
  {
    if a != [] && b != [] {
      LexLeAntisymmetric(a[1..], b[1..]);
      assert a == [a[0]] + a[1..] && b == [b[0]] + b[1..];
    }
  }

  lemma {:induction false} LexLeTransitive(a: string, b: string, c: string)
    requires LexLe(a, b) && LexLe(b, c)
    ensures LexLe(a, c)
  {
    if a != [] && b != [] && c != [] && a[0] == b[0] == c[0] {
      LexLeTransitive(a[1..], b[1..], c[1..]);
    }
  }

  lemma {:induction false} LexLeTotal(a: string, b: string)
    ensures LexLe(a, b) || LexLe(b, a)
  {
    if a != [] && b != [] && a[0] == b[0] {
      LexLeTotal(a[1..], b[1..]);
    }
  }

  /** `!(b <= a)` and `a < b` agree: the order is total. */
  lemma LexLtIsNotGe(a: string, b: string)
    ensures LexLt(a, b) <==> !LexLe(b, a)
  {
    LexLeTotal(a, b);
    if LexLe(b, a) && LexLe(a, b) {
      LexLeAntisymmetric(a, b);
    }
    if a == b {
      LexLeReflexive(a);
    }
  }

  /** Comparing two concatenations whose first parts have equal length: the
      first parts decide unless they are equal. */
  lemma {:induction false} LexLeConcat(p: string, q: string, p': string, q': string)
    requires |p| == |p'|
    ensures LexLe(p + q, p' + q') <==> LexLt(p, p') || (p == p' && LexLe(q, q'))
  {
    if p == [] {
      assert p + q == q && p' + q' == q';
    } else {
      assert (p + q)[0] == p[0] && (p' + q')[0] == p'[0];
      assert (p + q)[1..] == p[1..] + q && (p' + q')[1..] == p'[1..] + q';
      LexLeConcat(p[1..], q, p'[1..], q');
      if p[0] == p'[0] {
        assert p == p' <==> p[1..] == p'[1..] by {
          assert p == [p[0]] + p[1..] && p' == [p'[0]] + p'[1..];
        }
      }
    }
  }

  // ---------------------------------------------------------------------------
  // JavaScript's `<` on strings (IsLessThan, ECMA-262 section 7.2.13), which
  // compares UTF-16 code units
  // ---------------------------------------------------------------------------

  /** The UTF-16 encoding of one code point (ECMA-262 section 11.1.1): itself
      below U+10000, otherwise a high and a low surrogate. */
  function CodeUnitsOf(c: char): (r: seq<int>)
    ensures |r| == if (c as int) < 0x10000 then 1 else 2
    ensures forall i :: 0 <= i < |r| ==> 0 <= r[i] < 0x10000
  {
    var v := c as int;
    if v < 0x10000 then [v] else [0xD800 + (v - 0x10000) / 0x400, 0xDC00 + (v - 0x10000) % 0x400]
  }

  /** The code units of a string. */
  function CodeUnits(s: string): seq<int> {
    if s == [] then [] else CodeUnitsOf(s[0]) + CodeUnits(s[1..])
  }

  /** `a < b` on code unit sequences: `b` is not a prefix of `a`, and either
      `a` is a prefix of `b` or the first differing unit of `a` is smaller. */
  predicate UnitsLt(a: seq<int>, b: seq<int>) {
    if b == [] then false
    else if a == [] then true
    else if a[0] != b[0] then a[0] < b[0]
    else UnitsLt(a[1..], b[1..])
  }

  /** JavaScript's `a < b` (and `b > a`) on two strings. */
  predicate JsLessThan(a: string, b: string) {
    UnitsLt(CodeUnits(a), CodeUnits(b))
  }

  /** Every character of `s` is below U+10000, so each is one code unit. */
  predicate InBmp(s: string) {
    forall i :: 0 <= i < |s| ==> (s[i] as int) < 0x10000
  }

  /** Without characters above U+FFFF, JavaScript's `<` is the code point
      order; date keys, being ASCII, are such strings. */
  lemma {:induction false} JsLessThanInBmp(a: string, b: string)
    requires InBmp(a) && InBmp(b)
    ensures JsLessThan(a, b) <==> LexLt(a, b)
  {
    if a != [] && b != [] {
      assert CodeUnits(a) == [a[0] as int] + CodeUnits(a[1..]);
      assert CodeUnits(b) == [b[0] as int] + CodeUnits(b[1..]);
      assert InBmp(a[1..]) && InBmp(b[1..]) by {
        forall i | 0 <= i < |a| - 1 ensures (a[1..][i] as int) < 0x10000 {
          assert a[1..][i] == a[i + 1];
        }
        forall i | 0 <= i < |b| - 1 ensures (b[1..][i] as int) < 0x10000 {
          assert b[1..][i] == b[i + 1];
        }
      }
      JsLessThanInBmp(a[1..], b[1..]);
      if a[0] == b[0] {
        assert a == b <==> a[1..] == b[1..] by {
          assert a == [a[0]] + a[1..] && b == [b[0]] + b[1..];
        }
      }
    } else if a == [] && b != [] {
      assert CodeUnits(b) == CodeUnitsOf(b[0]) + CodeUnits(b[1..]);
    }
  }

  /** Above U+FFFF the two orders part: U+1F600 comes after U+FF21 by code
      point, but its high surrogate 0xD83D comes before 0xFF21. */
  lemma JsLessThanAboveBmp()
    ensures LexLt("\U{FF21}", "\U{1F600}") && JsLessThan("\U{1F600}", "\U{FF21}")
  {
    assert CodeUnits("\U{1F600}") == [0xD83D, 0xDE00];
    assert CodeUnits("\U{FF21}") == [0xFF21];
  }

  // ---------------------------------------------------------------------------
  // trim (String.prototype.trim, ECMA-262 section 22.1.3.32)
  // ---------------------------------------------------------------------------

  /** WhiteSpace and LineTerminator code points (ECMA-262 sections 12.2, 12.3). */
  predicate IsWhiteSpace(c: char) {
    c == '\t' || c == '\n' || c == '\U{B}' || c == '\U{C}' || c == '\r' || c == ' '
    || c == '\U{A0}' || c == '\U{1680}' || ('\U{2000}' <= c <= '\U{200A}')
    || c == '\U{2028}' || c == '\U{2029}' || c == '\U{202F}' || c == '\U{205F}'
    || c == '\U{3000}' || c == '\U{FEFF}'
  }

  /** `s` without its leading white space. */
  function TrimStart(s: string): (r: string)
    ensures |r| <= |s| && r == s[|s| - |r|..]
    ensures forall i :: 0 <= i < |s| - |r| ==> IsWhiteSpace(s[i])
    ensures r != [] ==> !IsWhiteSpace(r[0])
  {
    if s != [] && IsWhiteSpace(s[0]) then
      var r := TrimStart(s[1..]);
      assert s[1..][|s| - 1 - |r|..] == s[|s| - |r|..];
      assert forall i :: 0 <= i < |s| - |r| ==> IsWhiteSpace(s[i]) by {
        forall i | 1 <= i < |s| - |r| ensures IsWhiteSpace(s[i]) {
          assert s[i] == s[1..][i - 1];
        }
      }
      r
    else s
  }

  /** `s` without its trailing white space. */
  function TrimEnd(s: string): (r: string)
    ensures |r| <= |s| && r == s[..|r|]
    ensures forall i :: |r| <= i < |s| ==> IsWhiteSpace(s[i])
    ensures r != [] ==> !IsWhiteSpace(r[|r| - 1])
  {
    if s != [] && IsWhiteSpace(s[|s| - 1]) then TrimEnd(s[..|s| - 1]) else s
  }

  function Trim(s: string): string {
    TrimEnd(TrimStart(s))
  }

  /** A trimmed string starts and ends with something other than white space,
      and is what is left of `s` once the white space at both ends is cut. */
  lemma TrimShape(s: string)
    ensures Trim(s) != [] ==> !IsWhiteSpace(Trim(s)[0]) && !IsWhiteSpace(Trim(s)[|Trim(s)| - 1])
    ensures exists i, j :: (0 <= i <= j <= |s| && Trim(s) == s[i..j]
                            && (forall k :: 0 <= k < i ==> IsWhiteSpace(s[k]))
                            && (forall k :: j <= k < |s| ==> IsWhiteSpace(s[k])))
  {
    var t := TrimStart(s);
    var i := |s| - |t|;
    var j := i + |Trim(s)|;
    assert Trim(s) == s[i..j];
    forall k | j <= k < |s| ensures IsWhiteSpace(s[k]) {
      assert s[k] == t[k - i];
    }
  }

  lemma TrimIdempotent(s: string)
    ensures Trim(Trim(s)) == Trim(s)
  {
    var t := Trim(s);
    TrimShape(s);
    if t != [] {
      assert TrimStart(t) == t;
      assert TrimEnd(t) == t;
    }
  }

  // ---------------------------------------------------------------------------
  // split on one separator character (String.prototype.split, section 22.1.3.23)
  // ---------------------------------------------------------------------------

  /** The pieces of `s` between occurrences of `sep`, in order. */
  function Split(s: string, sep: char): (parts: seq<string>)
    ensures |parts| >= 1
    ensures forall i :: 0 <= i < |parts| ==> sep !in parts[i]
  {
    if s == [] then [[]]
    else
      var rest := Split(s[1..], sep);
      if s[0] == sep then [[]] + rest
      else [[s[0]] + rest[0]] + rest[1..]
  }

  /** The pieces glued back together with `sep` between them. */
  function Join(parts: seq<string>, sep: char): string
    requires |parts| >= 1
  {
    if |parts| == 1 then parts[0] else parts[0] + [sep] + Join(parts[1..], sep)
  }

  /** Splitting a piece free of `sep`, followed by `sep` and more text. */
  lemma {:induction false} SplitAfterPiece(a: string, sep: char, b: string)
    requires sep !in a
    ensures Split(a + [sep] + b, sep) == [a] + Split(b, sep)
  {
    if a == [] {
      assert a + [sep] + b == [sep] + b;
      assert ([sep] + b)[1..] == b;
    } else {
      assert (a + [sep] + b)[1..] == a[1..] + [sep] + b;
      SplitAfterPiece(a[1..], sep, b);
      assert [a[0]] + a[1..] == a;
    }
  }

  lemma {:induction false} SplitPiece(a: string, sep: char)
    requires sep !in a
    ensures Split(a, sep) == [a]
  {
    if a != [] {
      SplitPiece(a[1..], sep);
      assert [a[0]] + a[1..] == a;
    }
  }

  lemma {:induction false} SplitJoin(parts: seq<string>, sep: char)
    requires |parts| >= 1
    requires forall i :: 0 <= i < |parts| ==> sep !in parts[i]
    ensures Split(Join(parts, sep), sep) == parts
  {
    if |parts| == 1 {
      SplitPiece(parts[0], sep);
    } else {
      SplitJoin(parts[1..], sep);
      SplitAfterPiece(parts[0], sep, Join(parts[1..], sep));
      assert [parts[0]] + parts[1..] == parts;
    }
  }

  // ---------------------------------------------------------------------------
  // padStart (String.prototype.padStart, section 22.1.3.17) with a one-char filler
  // ---------------------------------------------------------------------------

  function PadStart(s: string, width: nat, fill: char): (r: string)
    ensures |r| == if |s| >= width then |s| else width
    ensures r[|r| - |s|..] == s
    ensures forall i :: 0 <= i < |r| - |s| ==> r[i] == fill
    decreases width - |s|
  {
    if |s| >= width then s else PadStart([fill] + s, width, fill)
  }
}
