/**
  The parts of the Java platform the discovery core leans on, stated as
  Dafny functions: nullable values, 32-bit ints and signed bytes, and the
  java.lang.String operations the parser and the comparator call (trim,
  ASCII case mapping, indexOf, split on CRLF, compareTo, decimal rendering).
 */
module JavaLang {

  /** A Java reference that may be null. */
  datatype Option<+T> = None | Some(value: T)

  /** Java's `int`. */
  type Int32 = x: int | -0x8000_0000 <= x < 0x8000_0000

  /** Java's signed `byte`. */
  type JByte = b: int | -128 <= b < 128

  /** Java `int` arithmetic: the mathematical value wrapped into 32 bits. */
  function WrapInt32(x: int): (r: Int32)
    ensures (r - x) % 0x1_0000_0000 == 0
    ensures -0x8000_0000 <= x < 0x8000_0000 ==> r == x
  {
    var m := x % 0x1_0000_0000;
    if m < 0x8000_0000 then m else m - 0x1_0000_0000
  }

  /** TimeUnit.MILLISECONDS.toSeconds: Java's `/` by 1000, truncating toward zero. */
  function MillisToSeconds(ms: int): (s: int)
    ensures 0 <= ms ==> 0 <= s && s * 1000 <= ms < s * 1000 + 1000
    ensures ms < 0 ==> s <= 0 && s * 1000 - 1000 < ms <= s * 1000
  {
    if ms >= 0 then ms / 1000 else -((-ms) / 1000)
  }

  // ---------------------------------------------------------------------
  // Characters
  // ---------------------------------------------------------------------

  predicate IsDigit(c: char) { '0' <= c <= '9' }

  predicate AllDigits(s: string) { forall i :: 0 <= i < |s| ==> IsDigit(s[i]) }

  /** Character.toLowerCase restricted to ASCII letters. */
  function LowerChar(c: char): char
  {
    if 'A' <= c <= 'Z' then (c as int - 'A' as int + 'a' as int) as char else c
  }

  /** Character.toUpperCase restricted to ASCII letters. */
  function UpperChar(c: char): char
  {
    if 'a' <= c <= 'z' then (c as int - 'a' as int + 'A' as int) as char else c
  }

  /** String.toLowerCase on ASCII text: every letter mapped, length kept. */
  function ToLowerCase(s: string): (r: string)
    ensures |r| == |s|
    ensures forall i :: 0 <= i < |s| ==> r[i] == LowerChar(s[i])
  {
    seq(|s|, i requires 0 <= i < |s| => LowerChar(s[i]))
  }

  /** String.toUpperCase on ASCII text. */
  function ToUpperCase(s: string): (r: string)
    ensures |r| == |s|
    ensures forall i :: 0 <= i < |s| ==> r[i] == UpperChar(s[i])
  {
    seq(|s|, i requires 0 <= i < |s| => UpperChar(s[i]))
  }

  // ---------------------------------------------------------------------
  // String.trim
  // ---------------------------------------------------------------------

  /** Java's trim treats every character up to U+0020 as white space. */
  predicate IsTrimmed(c: char) { c <= ' ' }

  function TrimStart(s: string): (r: string)
    ensures |r| <= |s| && r == s[|s| - |r|..]
    ensures r == [] || !IsTrimmed(r[0])
    ensures forall i :: 0 <= i < |s| - |r| ==> IsTrimmed(s[i])
  {
    if |s| > 0 && IsTrimmed(s[0]) then TrimStart(s[1..]) else s
  }

  function TrimEnd(s: string): (r: string)
    ensures |r| <= |s| && r == s[..|r|]
    ensures r == [] || !IsTrimmed(r[|r| - 1])
    ensures forall i :: |r| <= i < |s| ==> IsTrimmed(s[i])
  {
    if |s| > 0 && IsTrimmed(s[|s| - 1]) then TrimEnd(s[..|s| - 1]) else s
  }

  /** String.trim: the longest infix that neither starts nor ends with white space. */
  function Trim(s: string): (r: string)
    ensures |r| <= |s|
    ensures r == [] || (!IsTrimmed(r[0]) && !IsTrimmed(r[|r| - 1]))
  {
    TrimEnd(TrimStart(s))
  }

  /** Text that already has no surrounding white space is left alone. */
  lemma TrimIdentity(s: string)
    requires s == [] || (!IsTrimmed(s[0]) && !IsTrimmed(s[|s| - 1]))
    ensures Trim(s) == s
  {
    assert TrimStart(s) == s;
    assert TrimEnd(s) == s;
  }

  /** Surrounding white space of any length is removed. */
  lemma {:induction false} TrimPadding(pre: string, s: string, post: string)
    requires forall i :: 0 <= i < |pre| ==> IsTrimmed(pre[i])
    requires forall i :: 0 <= i < |post| ==> IsTrimmed(post[i])
    requires s == [] || (!IsTrimmed(s[0]) && !IsTrimmed(s[|s| - 1]))
    ensures Trim(pre + s + post) == s
  {
    if s == [] {
      assert pre + s + post == pre + post;
      TrimStartAllBlank(pre + post);
    } else {
      assert pre + s + post == pre + (s + post);
      TrimStartPadding(pre, s + post);
      TrimEndPadding(s, post);
    }
  }

  lemma {:induction false} TrimStartPadding(pre: string, s: string)
    requires forall i :: 0 <= i < |pre| ==> IsTrimmed(pre[i])
    requires s == [] || !IsTrimmed(s[0])
    ensures TrimStart(pre + s) == TrimStart(s)
  {
    if pre != [] {
      assert (pre + s)[1..] == pre[1..] + s;
      TrimStartPadding(pre[1..], s);
    }
  }

  lemma {:induction false} TrimStartAllBlank(s: string)
    requires forall i :: 0 <= i < |s| ==> IsTrimmed(s[i])
    ensures TrimStart(s) == [] && TrimEnd(TrimStart(s)) == []
  {
    if s != [] {
      TrimStartAllBlank(s[1..]);
    }
  }

  lemma {:induction false} TrimEndPadding(s: string, post: string)
    requires forall i :: 0 <= i < |post| ==> IsTrimmed(post[i])
    requires s != [] && !IsTrimmed(s[0]) && !IsTrimmed(s[|s| - 1])
    ensures TrimStart(s + post) == s + post
    ensures TrimEnd(s + post) == s
  {
    if post == [] {
      assert s + post == s;
    } else {
      var shorter := post[..|post| - 1];
      assert (s + post)[..|s + post| - 1] == s + shorter;
      TrimEndPadding(s, shorter);
    }
  }

  // ---------------------------------------------------------------------
  // String.indexOf
  // ---------------------------------------------------------------------

  /** String.indexOf(c): the first position of `c`, or -1 when there is none. */
  function IndexOf(s: string, c: char): (r: int)
    ensures -1 <= r < |s|
    ensures r == -1 <==> c !in s
    ensures 0 <= r ==> s[r] == c && c !in s[..r]
  {
    if |s| == 0 then -1
    else if s[0] == c then 0
    else
      var k := IndexOf(s[1..], c);
      assert s[1..] == s[..|s|][1..];
      if k == -1 then -1
      else
        assert s[..k + 1] == [s[0]] + s[1..][..k];
        k + 1
  }

  /** The first occurrence of `c` is found however many follow it. */
  lemma {:induction false} IndexOfFirst(a: string, c: char, b: string)
    requires c !in a
    ensures IndexOf(a + [c] + b, c) == |a|
  {
    var s := a + [c] + b;
    assert s[|a|] == c;
    assert forall k :: 0 <= k < |a| ==> s[k] == a[k];
    assert forall k :: |a| < k <= |s| ==> s[..k][|a|] == c;
  }

  // ---------------------------------------------------------------------
  // String.split("\r\n")
  // ---------------------------------------------------------------------

  const CRLF: string := "\r\n"

  /** No CR immediately followed by LF anywhere in `p`. */
  predicate CrlfFree(p: string)
  {
    forall i :: 0 <= i < |p| - 1 ==> !(p[i] == '\r' && p[i + 1] == '\n')
  }

  /**
    The text between CRLF separators, scanning left to right, trailing empty
    pieces kept: no piece holds a CRLF, and the first piece starts the text.
   */
  function CrlfPieces(s: string): (r: seq<string>)
    ensures |r| >= 1
    ensures r[0] <= s
    ensures forall k :: 0 <= k < |r| ==> CrlfFree(r[k])
    decreases |s|
  {
    if |s| == 0 then [""]
    else if |s| >= 2 && s[0] == '\r' && s[1] == '\n' then [""] + CrlfPieces(s[2..])
    else
      var rest := CrlfPieces(s[1..]);
      CrlfFreeCons(s, rest[0]);
      [[s[0]] + rest[0]] + rest[1..]
  }

  /** A character that does not start a CRLF in `s`, put before a CRLF-free start of `s[1..]`. */
  lemma CrlfFreeCons(s: string, p: string)
    requires |s| >= 1 && !(|s| >= 2 && s[0] == '\r' && s[1] == '\n')
    requires p <= s[1..] && CrlfFree(p)
    ensures [s[0]] + p <= s
    ensures CrlfFree([s[0]] + p)
  {
    var q := [s[0]] + p;
    forall i | 0 <= i < |q| - 1
      ensures !(q[i] == '\r' && q[i + 1] == '\n')
    {
      if i > 0 {
        assert q[i] == p[i - 1] && q[i + 1] == p[i];
      } else {
        assert q[1] == p[0] == s[1];
      }
    }
  }

  /** Pieces joined back together with CRLF between them. */
  function JoinCrlf(pieces: seq<string>): string
    requires |pieces| >= 1
  {
    if |pieces| == 1 then pieces[0] else pieces[0] + CRLF + JoinCrlf(pieces[1..])
  }

  /** An empty first piece contributes only its CRLF. */
  lemma JoinCrlfEmptyFirst(rest: seq<string>)
    requires |rest| >= 1
    ensures JoinCrlf([""] + rest) == CRLF + JoinCrlf(rest)
  {
    var pieces := [""] + rest;
    assert |pieces| > 1 && pieces[0] == "" && pieces[1..] == rest;
    assert JoinCrlf(pieces) == "" + CRLF + JoinCrlf(rest);
    assert "" + CRLF == CRLF;
  }

  /** A character put in front of the first piece comes first in the joined text. */
  lemma JoinCrlfExtendFirst(c: char, rest: seq<string>)
    requires |rest| >= 1
    ensures JoinCrlf([[c] + rest[0]] + rest[1..]) == [c] + JoinCrlf(rest)
  {
    var pieces := [[c] + rest[0]] + rest[1..];
    if |rest| > 1 {
      var tail := JoinCrlf(rest[1..]);
      assert pieces[0] == [c] + rest[0] && pieces[1..] == rest[1..];
      assert JoinCrlf(pieces) == ([c] + rest[0]) + CRLF + tail;
      assert JoinCrlf(rest) == rest[0] + CRLF + tail;
      PrependAssociates(c, rest[0], tail);
    } else {
      assert pieces == [[c] + rest[0]];
    }
  }

  /** A character in front of a line and its CRLF-led tail, grouped either way. */
  lemma PrependAssociates(c: char, line: string, tail: string)
    ensures ([c] + line) + CRLF + tail == [c] + (line + CRLF + tail)
  {
  }

  /** Splitting loses nothing: joining the pieces gives back the text. */
  lemma {:induction false} JoinCrlfPieces(s: string)
    ensures JoinCrlf(CrlfPieces(s)) == s
    decreases |s|
  {
    if |s| == 0 {
    } else if |s| >= 2 && s[0] == '\r' && s[1] == '\n' {
      JoinCrlfPieces(s[2..]);
      JoinCrlfEmptyFirst(CrlfPieces(s[2..]));
      assert s == CRLF + s[2..];
    } else {
      JoinCrlfPieces(s[1..]);
      JoinCrlfExtendFirst(s[0], CrlfPieces(s[1..]));
      assert s == [s[0]] + s[1..];
    }
  }

  /** A line without a carriage return, followed by CRLF, is split off as one piece. */
  lemma {:induction false} CrlfPiecesCons(line: string, rest: string)
    requires '\r' !in line
    ensures CrlfPieces(line + CRLF + rest) == [line] + CrlfPieces(rest)
    decreases |line|
  {
    var s := line + CRLF + rest;
    if line == [] {
      assert s == CRLF + rest;
      assert s[2..] == rest;
    } else {
      assert s[0] == line[0];
      assert s[1..] == line[1..] + CRLF + rest;
      CrlfPiecesCons(line[1..], rest);
      assert [line[0]] + line[1..] == line;
    }
  }

  /** Text without a carriage return is a single piece. */
  lemma {:induction false} CrlfPiecesSingle(line: string)
    requires '\r' !in line
    ensures CrlfPieces(line) == [line]
    decreases |line|
  {
    if line != [] {
      CrlfPiecesSingle(line[1..]);
      assert [line[0]] + line[1..] == line;
    }
  }

  /** Java's split removes the trailing empty strings of the piece list. */
  function DropTrailingEmpty(pieces: seq<string>): (r: seq<string>)
    ensures |r| <= |pieces| && r == pieces[..|r|]
    ensures r == [] || r[|r| - 1] != ""
    ensures forall i :: |r| <= i < |pieces| ==> pieces[i] == ""
  {
    if pieces != [] && pieces[|pieces| - 1] == "" then DropTrailingEmpty(pieces[..|pieces| - 1])
    else pieces
  }

  /**
    String.split("\r\n") with no limit: when the separator never occurs
    the result is the whole string; otherwise the pieces, less the trailing
    empty ones.
   */
  function SplitCrlf(s: string): (r: seq<string>)
    ensures r <= CrlfPieces(s)
    ensures forall i :: |r| <= i < |CrlfPieces(s)| ==> CrlfPieces(s)[i] == ""
    ensures forall k :: 0 <= k < |r| ==> CrlfFree(r[k])
  {
    var pieces := CrlfPieces(s);
    if |pieces| == 1 then pieces else DropTrailingEmpty(pieces)
  }

  /** With no carriage return in the text, split gives back the text alone. */
  lemma SplitCrlfSingle(s: string)
    requires '\r' !in s
    ensures SplitCrlf(s) == [s]
  {
    CrlfPiecesSingle(s);
  }

  // ---------------------------------------------------------------------
  // String.compareTo
  // ---------------------------------------------------------------------

  /**
    String.compareTo: at the first position where the strings differ, the
    difference of the two characters; when one is a prefix of the other,
    the difference of the lengths.
   */
  function CompareTo(s1: string, s2: string): (r: int)
    ensures r == 0 <==> s1 == s2
    decreases |s1|
  {
    if |s1| == 0 || |s2| == 0 then |s1| - |s2|
    else if s1[0] != s2[0] then s1[0] as int - s2[0] as int
    else
      var r := CompareTo(s1[1..], s2[1..]);
      assert s1 == [s1[0]] + s1[1..] && s2 == [s2[0]] + s2[1..];
      r
  }

  /** At the first position where the strings differ, the sign is that of the character difference. */
  lemma {:induction false} CompareToFirstDifference(s1: string, s2: string, k: nat)
    requires k < |s1| && k < |s2| && s1[..k] == s2[..k] && s1[k] != s2[k]
    ensures CompareTo(s1, s2) == s1[k] as int - s2[k] as int
    decreases k
  {
    if k > 0 {
      assert s1[0] == s1[..k][0] == s2[..k][0] == s2[0];
      assert s1[1..][..k - 1] == s1[1..k] == s2[1..k] == s2[1..][..k - 1];
      CompareToFirstDifference(s1[1..], s2[1..], k - 1);
    }
  }

  /** When one string is a prefix of the other, the shorter one sorts first, by the length difference. */
  lemma {:induction false} CompareToPrefix(s1: string, s2: string)
    requires s1 <= s2 || s2 <= s1
    ensures CompareTo(s1, s2) == |s1| - |s2|
    ensures s1 < s2 ==> CompareTo(s1, s2) < 0
    decreases |s1|
  {
    if |s1| > 0 && |s2| > 0 {
      assert s1[0] == s2[0];
      assert s1[1..] <= s2[1..] || s2[1..] <= s1[1..];
      CompareToPrefix(s1[1..], s2[1..]);
    }
  }

  /** Swapping the operands negates the result. */
  lemma {:induction false} CompareToAntisymmetric(s1: string, s2: string)
    ensures CompareTo(s2, s1) == -CompareTo(s1, s2)
    decreases |s1|
  {
    if |s1| > 0 && |s2| > 0 && s1[0] == s2[0] {
      CompareToAntisymmetric(s1[1..], s2[1..]);
    }
  }

  /** compareTo orders strings transitively. */
  lemma {:induction false} CompareToTransitive(s1: string, s2: string, s3: string)
    requires CompareTo(s1, s2) <= 0 && CompareTo(s2, s3) <= 0
    ensures CompareTo(s1, s3) <= 0
    ensures CompareTo(s1, s2) < 0 || CompareTo(s2, s3) < 0 ==> CompareTo(s1, s3) < 0
    decreases |s1|
  {
    if |s1| > 0 && |s2| > 0 && |s3| > 0 && s1[0] == s2[0] == s3[0] {
      CompareToTransitive(s1[1..], s2[1..], s3[1..]);
    }
  }

  // ---------------------------------------------------------------------
  // Decimal rendering (Integer.toString, Long.toString)
  // ---------------------------------------------------------------------

  function DigitChar(d: int): (c: char)
    requires 0 <= d < 10
    ensures IsDigit(c) && c as int - '0' as int == d
  {
    ('0' as int + d) as char
  }

  /** The value of a string of ASCII digits. */
  function DigitsValue(s: string): nat
    requires AllDigits(s)
  {
    if s == [] then 0
    else DigitsValue(s[..|s| - 1]) * 10 + (s[|s| - 1] as int - '0' as int)
  }

  /** The decimal digits of a natural number, most significant first, with no leading zero. */
  function NatToDigits(n: nat): (s: string)
    ensures |s| > 0 && AllDigits(s)
    ensures |s| > 1 ==> s[0] != '0'
  {
    if n < 10 then [DigitChar(n)] else NatToDigits(n / 10) + [DigitChar(n % 10)]
  }

  /** Integer.toString / Long.toString. */
  function IntToString(x: int): (s: string)
    ensures s != []
    ensures s[0] == '-' <==> x < 0
  {
    if x < 0 then "-" + NatToDigits(-x) else NatToDigits(x)
  }

  /** The value a decimal rendering denotes, read back. */
  function DecimalValue(s: string): int
    requires s != [] && AllDigits(if s[0] == '-' then s[1..] else s)
  {
    if s[0] == '-' then -(DigitsValue(s[1..]) as int) else DigitsValue(s)
  }

  lemma {:induction false} NatToDigitsValue(n: nat)
    ensures DigitsValue(NatToDigits(n)) == n
  {
    if n >= 10 {
      NatToDigitsValue(n / 10);
      var s := NatToDigits(n);
      assert s[..|s| - 1] == NatToDigits(n / 10);
    }
  }

  /** Rendering an int and reading it back gives the int. */
  lemma IntToStringRoundTrip(x: int)
    ensures IntToString(x) != [] && AllDigits(if IntToString(x)[0] == '-' then IntToString(x)[1..] else IntToString(x))
    ensures DecimalValue(IntToString(x)) == x
  {
    var s := IntToString(x);
    if x < 0 {
      assert s[1..] == NatToDigits(-x);
      NatToDigitsValue(-x);
    } else {
      NatToDigitsValue(x);
    }
  }

  /** A rendering never holds a carriage return, a colon or a dot. */
  lemma IntToStringCharacters(x: int)
    ensures '\r' !in IntToString(x) && ':' !in IntToString(x) && '.' !in IntToString(x)
  {
    var s := IntToString(x);
    if x < 0 {
      assert s == "-" + NatToDigits(-x);
      assert forall i :: 1 <= i < |s| ==> IsDigit(s[i]);
    }
  }
}
