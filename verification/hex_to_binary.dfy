/**
 * The hexadecimal-to-binary line encoder: `convert` turns a line of
 * lowercase hex digits into a string of '0'/'1' characters, four per digit,
 * and `readFile` cleans a list of lines (drops empty ones, strips tabs from
 * lines that end in a tab) and converts each of them.
 */
module HexToBinary {
  import opened Wrappers

  // ---------------------------------------------------------------------
  // Sequence facts, proved once in the abstract
  // ---------------------------------------------------------------------

  lemma AppendAssoc<T>(x: seq<T>, y: seq<T>, z: seq<T>)
    ensures x + (y + z) == (x + y) + z
  {
  }

  lemma AppendEmpty<T>(x: seq<T>)
    ensures x + [] == x && [] + x == x
  {
  }

  /** The last element of `a + b`, and what precedes it, when `b` is not empty. */
  lemma SplitLast<T>(a: seq<T>, b: seq<T>)
    requires b != []
    ensures (a + b)[..|a + b| - 1] == a + b[..|b| - 1]
    ensures (a + b)[|a + b| - 1] == b[|b| - 1]
  {
  }

  // ---------------------------------------------------------------------
  // Characters and binary numerals
  // ---------------------------------------------------------------------

  /** The digits `convert` recognises, in order of their value. */
  const HexDigits: string := "0123456789abcdef"

  predicate IsHexDigit(c: char) {
    '0' <= c <= '9' || 'a' <= c <= 'f'
  }

  predicate AllHex(s: string) {
    forall k :: 0 <= k < |s| ==> IsHexDigit(s[k])
  }

  predicate IsBinary(s: string) {
    forall k :: 0 <= k < |s| ==> s[k] == '0' || s[k] == '1'
  }

  /** The value of a lowercase hex digit, 0 to 15. */
  function HexValue(c: char): (v: nat)
    requires IsHexDigit(c)
    ensures v < 16
  {
    if c <= '9' then c as int - '0' as int else c as int - 'a' as int + 10
  }

  /** A digit's value is its position in `HexDigits`, and every position holds a digit. */
  lemma HexValueIndex(c: char)
    requires IsHexDigit(c)
    ensures HexDigits[HexValue(c)] == c
  {
  }

  lemma HexDigitsAreDigits(v: nat)
    requires v < 16
    ensures IsHexDigit(HexDigits[v]) && HexValue(HexDigits[v]) == v
  {
  }

  function Pow2(n: nat): (p: nat)
    ensures p >= 1
  {
    if n == 0 then 1 else 2 * Pow2(n - 1)
  }

  /** The `width`-character big-endian binary numeral of `v`, leading zeros kept. */
  function ToBinary(v: nat, width: nat): (r: string)
    ensures |r| == width
  {
    if width == 0 then "" else ToBinary(v / 2, width - 1) + [if v % 2 == 0 then '0' else '1']
  }

  lemma {:induction false} ToBinaryIsBinary(v: nat, width: nat)
    ensures IsBinary(ToBinary(v, width))
  {
    if width > 0 {
      ToBinaryIsBinary(v / 2, width - 1);
    }
  }

  /** The number a big-endian binary numeral stands for. */
  function BinaryValue(b: string): (v: nat)
    requires IsBinary(b)
    ensures v < Pow2(|b|)
  {
    if b == "" then 0
    else 2 * BinaryValue(b[..|b| - 1]) + (if b[|b| - 1] == '1' then 1 else 0)
  }

  lemma {:induction false} BinaryValueOfToBinary(v: nat, width: nat)
    requires v < Pow2(width)
    ensures IsBinary(ToBinary(v, width)) && BinaryValue(ToBinary(v, width)) == v
  {
    ToBinaryIsBinary(v, width);
    if width > 0 {
      BinaryValueOfToBinary(v / 2, width - 1);
      SplitLast(ToBinary(v / 2, width - 1), [if v % 2 == 0 then '0' else '1']);
    }
  }

  /** Appending a bit to a numeral doubles its value and adds the bit. */
  lemma ToBinaryDouble(v: nat, bit: nat, width: nat)
    requires bit < 2
    ensures ToBinary(2 * v + bit, width + 1) == ToBinary(v, width) + [if bit == 0 then '0' else '1']
  {
    assert (2 * v + bit) / 2 == v && (2 * v + bit) % 2 == bit;
  }

  lemma {:induction false} ToBinaryOfBinaryValue(b: string)
    requires IsBinary(b)
    ensures ToBinary(BinaryValue(b), |b|) == b
  {
    if b != "" {
      var p, last := b[..|b| - 1], b[|b| - 1];
      ToBinaryOfBinaryValue(p);
      ToBinaryDouble(BinaryValue(p), if last == '1' then 1 else 0, |p|);
      assert b == p + [last];
    }
  }

  // ---------------------------------------------------------------------
  // convert
  // ---------------------------------------------------------------------

  /**
   * What one character adds to the output of `convert`: `convert`'s table
   * of 4-character groups for the lowercase hex digits, and nothing for a
   * tab or any other character, upper-case 'A'-'F' included.
   */
  function Nibble(c: char): (bits: string)
    ensures |bits| == if IsHexDigit(c) then 4 else 0
  {
    match c
    case '0' => "0000"
    case '1' => "0001"
    case '2' => "0010"
    case '3' => "0011"
    case '4' => "0100"
    case '5' => "0101"
    case '6' => "0110"
    case '7' => "0111"
    case '8' => "1000"
    case '9' => "1001"
    case 'a' => "1010"
    case 'b' => "1011"
    case 'c' => "1100"
    case 'd' => "1101"
    case 'e' => "1110"
    case 'f' => "1111"
    case _ => ""
  }

  /** Each group is the 4-bit big-endian numeral of the digit's value. */
  lemma NibbleBigEndian(c: char)
    requires IsHexDigit(c)
    ensures Nibble(c) == ToBinary(HexValue(c), 4)
  {
    if c <= '3' {
      NibbleRows0To3(c);
    } else if c <= '7' {
      NibbleRows4To7(c);
    } else if c <= '9' || c == 'a' || c == 'b' {
      NibbleRows8ToB(c);
    } else {
      NibbleRowsCToF(c);
    }
  }

  /** Table rows '0' to '3' against their numerals. */
  lemma NibbleRows0To3(c: char)
    requires c == '0' || c == '1' || c == '2' || c == '3'
    ensures Nibble(c) == ToBinary(HexValue(c), 4)
  {
    if c == '0' {
      assert ToBinary(0, 4) == "0000";
    } else if c == '1' {
      assert ToBinary(1, 4) == "0001";
    } else if c == '2' {
      assert ToBinary(2, 4) == "0010";
    } else {
      assert ToBinary(3, 4) == "0011";
    }
  }

  /** Table rows '4' to '7' against their numerals. */
  lemma NibbleRows4To7(c: char)
    requires c == '4' || c == '5' || c == '6' || c == '7'
    ensures Nibble(c) == ToBinary(HexValue(c), 4)
  {
    if c == '4' {
      assert ToBinary(4, 4) == "0100";
    } else if c == '5' {
      assert ToBinary(5, 4) == "0101";
    } else if c == '6' {
      assert ToBinary(6, 4) == "0110";
    } else {
      assert ToBinary(7, 4) == "0111";
    }
  }

  /** Table rows '8' to 'b' against their numerals. */
  lemma NibbleRows8ToB(c: char)
    requires c == '8' || c == '9' || c == 'a' || c == 'b'
    ensures Nibble(c) == ToBinary(HexValue(c), 4)
  {
    if c == '8' {
      assert ToBinary(8, 4) == "1000";
    } else if c == '9' {
      assert ToBinary(9, 4) == "1001";
    } else if c == 'a' {
      assert ToBinary(10, 4) == "1010";
    } else {
      assert ToBinary(11, 4) == "1011";
    }
  }

  /** Table rows 'c' to 'f' against their numerals. */
  lemma NibbleRowsCToF(c: char)
    requires c == 'c' || c == 'd' || c == 'e' || c == 'f'
    ensures Nibble(c) == ToBinary(HexValue(c), 4)
  {
    if c == 'c' {
      assert ToBinary(12, 4) == "1100";
    } else if c == 'd' {
      assert ToBinary(13, 4) == "1101";
    } else if c == 'e' {
      assert ToBinary(14, 4) == "1110";
    } else {
      assert ToBinary(15, 4) == "1111";
    }
  }

  /** Characters outside the table contribute nothing. */
  lemma NibbleOutside(c: char)
    requires !IsHexDigit(c)
    ensures Nibble(c) == ""
  {
  }

  /** The hex digits of `s`, in order; everything else dropped. */
  function HexOnly(s: string): (r: string)
    ensures |r| <= |s|
  {
    if s == "" then ""
    else HexOnly(s[..|s| - 1]) + (if IsHexDigit(s[|s| - 1]) then [s[|s| - 1]] else "")
  }

  lemma {:induction false} HexOnlyAllHex(s: string)
    ensures AllHex(HexOnly(s))
  {
    if s != "" {
      HexOnlyAllHex(s[..|s| - 1]);
    }
  }

  /**
   * The output of `convert(s)`: the contributions of the characters of `s`,
   * appended in order.
   */
  function HexBits(s: string): (r: string)
    ensures |r| <= 4 * |s|
  {
    if s == "" then ""
    else HexBits(s[..|s| - 1]) + Nibble(s[|s| - 1])
  }

  /** Appending one character appends its contribution. */
  lemma HexBitsSnoc(s: string, c: char)
    ensures HexBits(s + [c]) == HexBits(s) + Nibble(c)
  {
    SplitLast(s, [c]);
  }

  /** The output is binary and has four characters per hex digit of the input. */
  lemma {:induction false} HexBitsShape(s: string)
    ensures IsBinary(HexBits(s))
    ensures |HexBits(s)| == 4 * |HexOnly(s)|
  {
    if s != "" {
      var c := s[|s| - 1];
      HexBitsShape(s[..|s| - 1]);
      if IsHexDigit(c) {
        NibbleBigEndian(c);
        ToBinaryIsBinary(HexValue(c), 4);
      }
    }
  }

  /** `convert` distributes over concatenation. */
  lemma {:induction false} HexBitsAppend(a: string, b: string)
    ensures HexBits(a + b) == HexBits(a) + HexBits(b)
  {
    if b == "" {
      AppendEmpty(a);
      AppendEmpty(HexBits(a));
    } else {
      var b' := b[..|b| - 1];
      HexBitsAppend(a, b');
      SplitLast(a, b);
      AppendAssoc(HexBits(a), HexBits(b'), Nibble(b[|b| - 1]));
    }
  }

  /** Tabs, upper-case letters and every other non-digit add nothing. */
  lemma {:induction false} HexBitsIgnoresOthers(s: string)
    ensures HexBits(s) == HexBits(HexOnly(s))
  {
    if s != "" {
      var p, c := s[..|s| - 1], s[|s| - 1];
      HexBitsIgnoresOthers(p);
      if IsHexDigit(c) {
        HexBitsSnoc(HexOnly(p), c);
      } else {
        NibbleOutside(c);
        AppendEmpty(HexOnly(p));
        AppendEmpty(HexBits(p));
      }
    }
  }

  /**
   * The `convert` loop: each lowercase hex digit appends its group from the
   * table; a tab is passed over silently, and every other character is
   * passed over after an "Invalid key" diagnostic. `convert`'s `''` branch
   * compares one character with the empty string, can never be taken, and
   * has no counterpart here.
   */
  method Convert(str: string) returns (binStr: string)
    ensures binStr == HexBits(str)
  {
    binStr := "";
    for i := 0 to |str|
      invariant binStr == HexBits(str[..i])
    {
      assert str[..i + 1] == str[..i] + [str[i]];
      HexBitsSnoc(str[..i], str[i]);
      var c := str[i];
      if IsHexDigit(c) {
        binStr := binStr + Nibble(c);
      } else if c == '\t' {
        // passed over silently
        NibbleOutside(c);
        AppendEmpty(binStr);
      } else {
        // "Invalid key": reported and passed over
        NibbleOutside(c);
        AppendEmpty(binStr);
      }
    }
    assert str[..|str|] == str;
  }

  // ---------------------------------------------------------------------
  // Decoding: the inverse of convert on hex-only lines
  // ---------------------------------------------------------------------

  /** The hex digit a 4-bit group encodes, if it is one. */
  function GroupDigit(g: string): (d: Option<char>)
    ensures d.Some? ==> IsHexDigit(d.value)
  {
    if |g| == 4 && IsBinary(g) then
      var v := BinaryValue(g);
      assert Pow2(4) == 16;
      HexDigitsAreDigits(v);
      Some(HexDigits[v])
    else None
  }

  lemma GroupDigitOfNibble(c: char)
    requires IsHexDigit(c)
    ensures GroupDigit(Nibble(c)) == Some(c)
  {
    assert Pow2(4) == 16;
    NibbleBigEndian(c);
    ToBinaryIsBinary(HexValue(c), 4);
    BinaryValueOfToBinary(HexValue(c), 4);
    HexValueIndex(c);
  }

  lemma NibbleOfGroupDigit(g: string, c: char)
    requires GroupDigit(g) == Some(c)
    ensures Nibble(c) == g
  {
    var v := BinaryValue(g);
    assert Pow2(4) == 16;
    HexDigitsAreDigits(v);
    NibbleBigEndian(c);
    ToBinaryOfBinaryValue(g);
  }

  /** Splits a binary string into 4-bit groups and decodes each one. */
  function Decode(b: string): (r: Option<string>)
    ensures r.Some? ==> |b| == 4 * |r.value|
  {
    if b == "" then Some("")
    else if |b| < 4 then None
    else
      match (Decode(b[..|b| - 4]), GroupDigit(b[|b| - 4..]))
      case (Some(p), Some(d)) => Some(p + [d])
      case _ => None
  }

  /** Only lowercase hex digits come out of decoding. */
  lemma {:induction false} DecodeAllHex(b: string)
    requires Decode(b).Some?
    ensures AllHex(Decode(b).value)
  {
    if b != "" {
      DecodeAllHex(b[..|b| - 4]);
    }
  }

  /** The last four characters of `a + g` are `g`, and `a` comes before them. */
  lemma SplitGroup(a: string, g: string)
    requires |g| == 4
    ensures (a + g)[..|a + g| - 4] == a && (a + g)[|a + g| - 4..] == g
  {
  }

  /** Decoding works group by group from the end. */
  lemma DecodeSnoc(a: string, g: string, p: string, d: char)
    requires Decode(a) == Some(p) && GroupDigit(g) == Some(d)
    ensures Decode(a + g) == Some(p + [d])
  {
    SplitGroup(a, g);
  }

  /** Round trip: decoding the output of `convert` gives back the line, leading zeros and all. */
  lemma {:induction false} DecodeHexBits(s: string)
    requires AllHex(s)
    ensures Decode(HexBits(s)) == Some(s)
  {
    if s != "" {
      var p, c := s[..|s| - 1], s[|s| - 1];
      assert s == p + [c];
      DecodeHexBits(p);
      GroupDigitOfNibble(c);
      DecodeSnoc(HexBits(p), Nibble(c), p, c);
      HexBitsSnoc(p, c);
    }
  }

  /** The other direction: whatever decodes to `s` is exactly what `convert(s)` produces. */
  lemma {:induction false} HexBitsOfDecode(b: string, s: string)
    requires Decode(b) == Some(s)
    ensures HexBits(s) == b
  {
    if b != "" {
      var front, g := b[..|b| - 4], b[|b| - 4..];
      var p := Decode(front).value;
      var c := GroupDigit(g).value;
      assert s == p + [c];
      HexBitsOfDecode(front, p);
      NibbleOfGroupDigit(g, c);
      HexBitsSnoc(p, c);
      SplitGroup(front, g);
      assert b == front + g;
    }
  }

  // ---------------------------------------------------------------------
  // readFile: empty-line removal
  // ---------------------------------------------------------------------

  /** The non-empty lines, in their original order. */
  function NonEmpty(lines: seq<string>): (r: seq<string>)
    ensures |r| <= |lines|
    ensures forall k :: 0 <= k < |r| ==> r[k] != ""
  {
    if lines == [] then []
    else NonEmpty(lines[..|lines| - 1]) + (if lines[|lines| - 1] == "" then [] else [lines[|lines| - 1]])
  }

  /** Filtering is done line by line, so the kept lines stay in order. */
  lemma {:induction false} NonEmptyAppend(a: seq<string>, b: seq<string>)
    ensures NonEmpty(a + b) == NonEmpty(a) + NonEmpty(b)
  {
    if b == [] {
      assert a + b == a;
    } else {
      var b' := b[..|b| - 1];
      NonEmptyAppend(a, b');
      assert (a + b)[..|a + b| - 1] == a + b';
    }
  }

  /** A line survives exactly when it is in the input and is not empty. */
  lemma {:induction false} NonEmptyMembers(lines: seq<string>, line: string)
    ensures line in NonEmpty(lines) <==> line in lines && line != ""
  {
    if lines != [] {
      var p := lines[..|lines| - 1];
      NonEmptyMembers(p, line);
      assert lines == p + [lines[|lines| - 1]];
    }
  }

  /** Popping an empty line does not change the non-empty lines. */
  lemma NonEmptyPop(lines: seq<string>, i: nat)
    requires i < |lines| && lines[i] == ""
    ensures NonEmpty(lines[..i] + lines[i + 1..]) == NonEmpty(lines)
  {
    var a, b := lines[..i], lines[i + 1..];
    assert lines == (a + [lines[i]]) + b;
    assert (a + [lines[i]])[..|a|] == a;
    assert NonEmpty(a + [lines[i]]) == NonEmpty(a);
    NonEmptyAppend(a + [lines[i]], b);
    NonEmptyAppend(a, b);
  }

  /** Lists without empty lines are left as they are. */
  lemma {:induction false} NonEmptyIdentity(lines: seq<string>)
    requires forall k :: 0 <= k < |lines| ==> lines[k] != ""
    ensures NonEmpty(lines) == lines
  {
    if lines != [] {
      NonEmptyIdentity(lines[..|lines| - 1]);
      assert lines == lines[..|lines| - 1] + [lines[|lines| - 1]];
    }
  }

  /**
   * The `while` loop that pops empty lines in place: each iteration either
   * removes `alist[i]` or moves `i` past a non-empty line.
   */
  method RemoveEmptyLines(lines: seq<string>) returns (alist: seq<string>)
    ensures alist == NonEmpty(lines)
  {
    alist := lines;
    var i := 0;
    while i < |alist|
      invariant i <= |alist|
      invariant forall k :: 0 <= k < i ==> alist[k] != ""
      invariant NonEmpty(alist) == NonEmpty(lines)
      decreases |alist| - i
    {
      if alist[i] == "" {
        NonEmptyPop(alist, i);
        alist := alist[..i] + alist[i + 1..];  // alist.pop(i)
      } else {
        i := i + 1;
      }
    }
    NonEmptyIdentity(alist);
  }

  // ---------------------------------------------------------------------
  // readFile: tab stripping
  // ---------------------------------------------------------------------

  /** `line.replace("\t", "")`: every tab removed, every other character kept in order. */
  function RemoveTabs(s: string): (r: string)
    ensures |r| <= |s|
    ensures forall k :: 0 <= k < |r| ==> r[k] != '\t'
  {
    if s == "" then ""
    else RemoveTabs(s[..|s| - 1]) + (if s[|s| - 1] == '\t' then "" else [s[|s| - 1]])
  }

  /** One character: a tab is dropped, anything else is kept. */
  lemma RemoveTabsChar(c: char)
    ensures RemoveTabs([c]) == if c == '\t' then "" else [c]
  {
    assert [c][..0] == "";
  }

  /** Tabs are removed piece by piece, so every other character is kept, in order. */
  lemma {:induction false} RemoveTabsAppend(a: string, b: string)
    ensures RemoveTabs(a + b) == RemoveTabs(a) + RemoveTabs(b)
  {
    if b == "" {
      AppendEmpty(a);
      AppendEmpty(RemoveTabs(a));
    } else {
      var b', c := b[..|b| - 1], b[|b| - 1];
      RemoveTabsAppend(a, b');
      SplitLast(a, b);
      AppendAssoc(RemoveTabs(a), RemoveTabs(b'), if c == '\t' then "" else [c]);
    }
  }

  /** Removing tabs shortens a line that has a tab and leaves any other line as it is. */
  lemma {:induction false} RemoveTabsChanges(s: string)
    ensures '\t' in s ==> |RemoveTabs(s)| < |s|
    ensures '\t' !in s ==> RemoveTabs(s) == s
  {
    if s != "" {
      var p := s[..|s| - 1];
      RemoveTabsChanges(p);
      assert s == p + [s[|s| - 1]];
    }
  }

  /** Removing tabs keeps every hex digit, in order. */
  lemma {:induction false} HexOnlyRemoveTabs(s: string)
    ensures HexOnly(RemoveTabs(s)) == HexOnly(s)
  {
    if s != "" {
      var p, c := s[..|s| - 1], s[|s| - 1];
      HexOnlyRemoveTabs(p);
      if c == '\t' {
        AppendEmpty(RemoveTabs(p));
        AppendEmpty(HexOnly(p));
      } else {
        SplitLast(RemoveTabs(p), [c]);
      }
    }
  }

  /** Tabs add nothing to the encoding, so removing them does not change it. */
  lemma HexBitsRemoveTabs(s: string)
    ensures HexBits(RemoveTabs(s)) == HexBits(s)
  {
    HexBitsIgnoresOthers(s);
    HexBitsIgnoresOthers(RemoveTabs(s));
    HexOnlyRemoveTabs(s);
  }

  /**
   * A line whose last character is a tab loses all its tabs, and so comes
   * out shorter; any other line is kept as it is, inner tabs included. The
   * line must not be empty: `readFile` reads its last character, which fails
   * on an empty line.
   */
  function StripLine(line: string): (r: string)
    requires line != ""
    ensures line[|line| - 1] == '\t' ==> r == RemoveTabs(line) && '\t' !in r && |r| < |line|
    ensures line[|line| - 1] != '\t' ==> r == line
  {
    if line[|line| - 1] == '\t' then
      RemoveTabsChanges(line);
      RemoveTabs(line)
    else line
  }

  /** Stripping never changes what a line converts to. */
  lemma StripLineHexBits(line: string)
    requires line != ""
    ensures HexBits(StripLine(line)) == HexBits(line)
  {
    HexBitsRemoveTabs(line);
  }

  /** The loop that fills `alist2` with the stripped lines. */
  method StripTrailingTabs(alist: seq<string>) returns (alist2: seq<string>)
    requires forall k :: 0 <= k < |alist| ==> alist[k] != ""
    ensures |alist2| == |alist|
    ensures forall k :: 0 <= k < |alist| ==> alist2[k] == StripLine(alist[k])
  {
    alist2 := [];
    for i := 0 to |alist|
      invariant |alist2| == i
      invariant forall k :: 0 <= k < i ==> alist2[k] == StripLine(alist[k])
    {
      var line := alist[i];
      var stripped := line;
      if line[|line| - 1] == '\t' {
        stripped := RemoveTabs(line);
      }
      assert stripped == StripLine(line);
      alist2 := alist2 + [stripped];
    }
  }

  // ---------------------------------------------------------------------
  // readFile: conversion of every line
  // ---------------------------------------------------------------------

  /** The loop that fills `alist3` with the converted lines. */
  method ConvertLines(alist2: seq<string>) returns (alist3: seq<string>)
    ensures |alist3| == |alist2|
    ensures forall k :: 0 <= k < |alist2| ==> alist3[k] == HexBits(alist2[k])
  {
    alist3 := [];
    for j := 0 to |alist2|
      invariant |alist3| == j
      invariant forall k :: 0 <= k < j ==> alist3[k] == HexBits(alist2[k])
    {
      var binaryString := Convert(alist2[j]);
      alist3 := alist3 + [binaryString];
    }
  }

  /**
   * `readFile` from the moment the file's lines are in hand: one binary
   * string per non-empty line, in order, each the conversion of the cleaned
   * line (and so of the line itself, since tabs convert to nothing).
   */
  method ReadFile(lines: seq<string>) returns (alist3: seq<string>)
    ensures |alist3| == |NonEmpty(lines)|
    ensures forall k :: 0 <= k < |alist3| ==> alist3[k] == HexBits(StripLine(NonEmpty(lines)[k]))
    ensures forall k :: 0 <= k < |alist3| ==> alist3[k] == HexBits(NonEmpty(lines)[k])
  {
    var alist := RemoveEmptyLines(lines);
    var alist2 := StripTrailingTabs(alist);
    alist3 := ConvertLines(alist2);
    forall k | 0 <= k < |alist3|
      ensures alist3[k] == HexBits(NonEmpty(lines)[k])
    {
      StripLineHexBits(alist[k]);
    }
  }
}
