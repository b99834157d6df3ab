/**
 * One line of the Unicode Character Database file Blocks.txt becomes a
 * `UnicodeBlock`, and a block becomes one Emacs Lisp `defconst` line.
 */
module Uniblock {
  import opened Wrappers
  import opened Hex
  import opened Ascii

  /** A named, inclusive code-point range. `start <= end` is not enforced. */
  datatype UnicodeBlock = UnicodeBlock(name: string, range: (uint32, uint32))

  /** Number of characters of the maximal `[0-9A-F]` run at the front of `s`. */
  function HexRunLength(s: string): (n: nat)
    ensures n <= |s|
    ensures forall i :: 0 <= i < n ==> IsUpperHexDigit(s[i])
    ensures n < |s| ==> !IsUpperHexDigit(s[n])
  {
    if |s| > 0 && IsUpperHexDigit(s[0]) then 1 + HexRunLength(s[1..]) else 0
  }

  predicate StartsWith(s: string, prefix: string) {
    |prefix| <= |s| && s[..|prefix|] == prefix
  }

  /**
   * The three capture groups of `^([0-9A-F]+)\.\.([0-9A-F]+); (.*)$`, or `None`
   * when the line does not match. A hex digit is never `.` or `;`, so each hex
   * group is the maximal run where it starts; `.` does not match a line feed and
   * `$` is the end of the text.
   */
  function Captures(line: string): (r: Option<(string, string, string)>)
    ensures r.Some? ==>
      && line == r.value.0 + ".." + r.value.1 + "; " + r.value.2
      && IsUpperHexRun(r.value.0) && IsUpperHexRun(r.value.1) && '\n' !in r.value.2
  {
    var n := HexRunLength(line);
    if n == 0 || !StartsWith(line[n..], "..") then None
    else
      match CapturesAfterDots(line[n + 2..])
      case None => None
      case Some((second, name)) =>
        assert line == line[..n] + ".." + line[n + 2..];
        Some((line[..n], second, name))
  }

  /** The second group and the name, matched against the text after `..`. */
  function CapturesAfterDots(rest: string): (r: Option<(string, string)>)
    ensures r.Some? ==>
      rest == r.value.0 + "; " + r.value.1 && IsUpperHexRun(r.value.0) && '\n' !in r.value.1
  {
    var m := HexRunLength(rest);
    if m == 0 || !StartsWith(rest[m..], "; ") then None
    else
      var name := rest[m + 2..];
      if '\n' in name then None
      else
        assert rest == rest[..m] + "; " + name;
        Some((rest[..m], name))
  }

  /** `parse_line`: the regex match, then both bounds through `u32::from_str_radix(_, 16)`. */
  function ParseLine(line: string): Option<UnicodeBlock> {
    match Captures(line)
    case None => None
    case Some((first, second, name)) =>
      match (FromHexU32(first), FromHexU32(second))
      case (Some(start), Some(end)) => Some(UnicodeBlock(name, (start, end)))
      case _ => None
  }

  /** The line is `a..b; name` with `a`, `b` upper-case hex runs and no line feed in `name`. */
  ghost predicate IsBlockLine(line: string, a: string, b: string, name: string) {
    && line == a + ".." + b + "; " + name
    && IsUpperHexRun(a) && IsUpperHexRun(b) && '\n' !in name
  }

  /** The language of the regular expression. */
  ghost predicate MatchesBlockLine(line: string) {
    exists a, b, name :: IsBlockLine(line, a, b, name)
  }

  lemma HexRunLengthOfRun(a: string, t: string)
    requires IsUpperHexRun(a) && |t| > 0 && !IsUpperHexDigit(t[0])
    ensures HexRunLength(a + t) == |a|
  {
    assert forall i :: 0 <= i < |a| ==> (a + t)[i] == a[i];
    assert (a + t)[|a|] == t[0];
  }

  lemma CapturesAfterDotsComplete(b: string, name: string)
    requires IsUpperHexRun(b) && '\n' !in name
    ensures CapturesAfterDots(b + "; " + name) == Some((b, name))
  {
    var tail := b + "; " + name;
    assert tail == b + ("; " + name);
    HexRunLengthOfRun(b, "; " + name);
    assert tail[|b|..] == "; " + name;
    assert tail[..|b|] == b;
    assert tail[|b| + 2..] == name;
  }

  /** After a first hex run and `..`, the match depends on the rest of the line only. */
  lemma CapturesOfDots(a: string, tail: string)
    requires IsUpperHexRun(a)
    ensures Captures(a + ".." + tail) ==
      match CapturesAfterDots(tail)
      case None => None
      case Some((b, name)) => Some((a, b, name))
  {
    var line := a + (".." + tail);
    assert a + ".." + tail == line;
    HexRunLengthOfRun(a, ".." + tail);
    assert line[|a|..] == ".." + tail;
    assert line[..|a|] == a;
    assert line[|a| + 2..] == tail;
  }

  /** Every split of a line into the regex's parts is the one `Captures` finds. */
  lemma CapturesComplete(a: string, b: string, name: string)
    requires IsUpperHexRun(a) && IsUpperHexRun(b) && '\n' !in name
    ensures Captures(a + ".." + b + "; " + name) == Some((a, b, name))
  {
    CapturesOfDots(a, b + "; " + name);
    CapturesAfterDotsComplete(b, name);
    assert a + ".." + b + "; " + name == a + ".." + (b + "; " + name);
  }

  /**
   * Completeness of `parse_line`: a line in the regex's language is accepted
   * exactly when both bounds fit in 32 bits, and then the block holds the two
   * hex values and the rest of the line verbatim.
   */
  lemma ParseLineComplete(line: string, a: string, b: string, name: string)
    requires IsBlockLine(line, a, b, name)
    ensures ParseLine(line) ==
      if HexValue(a) <= U32_MAX && HexValue(b) <= U32_MAX
      then Some(UnicodeBlock(name, (HexValue(a), HexValue(b))))
      else None
  {
    CapturesComplete(a, b, name);
  }

  /**
   * Soundness of `parse_line`: an accepted line is in the regex's language,
   * its name is the text after `"; "` and its range is the values of the two
   * hex runs.
   */
  lemma ParseLineSound(line: string)
    requires ParseLine(line).Some?
    ensures exists a, b :: (IsBlockLine(line, a, b, ParseLine(line).value.name)
      && ParseLine(line).value.range == (HexValue(a), HexValue(b)))
  {
  }

  /** A line outside the regex's language gives `None`, and never a failure. */
  lemma ParseLineRejects(line: string)
    requires !MatchesBlockLine(line)
    ensures ParseLine(line) == None
  {
    if ParseLine(line).Some? {
      ParseLineSound(line);
    }
  }

  /** A line that does not begin with `[0-9A-F]` is dropped: blank lines, `#` comments, leading spaces. */
  lemma ParseLineNeedsLeadingDigit(line: string)
    requires |line| == 0 || !IsUpperHexDigit(line[0])
    ensures ParseLine(line) == None
  {
  }

  /** The text after the first hex run must begin with `..`; one dot, or a `0x` prefix, is rejected. */
  lemma ParseLineNeedsDoubleDot(a: string, t: string)
    requires IsUpperHexRun(a) && !StartsWith(t, "..") && (|t| == 0 || !IsUpperHexDigit(t[0]))
    ensures ParseLine(a + t) == None
  {
    if |t| > 0 {
      HexRunLengthOfRun(a, t);
      assert (a + t)[|a|..] == t;
    } else {
      assert a + t == a;
    }
  }

  /** `;` must be followed by a space; lower-case digits in the second group are also rejected. */
  lemma ParseLineNeedsSeparator(a: string, b: string, t: string)
    requires IsUpperHexRun(a) && IsUpperHexRun(b)
    requires !StartsWith(t, "; ") && (|t| == 0 || !IsUpperHexDigit(t[0]))
    ensures ParseLine(a + ".." + b + t) == None
  {
    CapturesOfDots(a, b + t);
    assert a + ".." + b + t == a + ".." + (b + t);
    if |t| > 0 {
      HexRunLengthOfRun(b, t);
      assert (b + t)[|b|..] == t;
    } else {
      assert b + t == b;
    }
  }

  /** A bound over `0xFFFFFFFF` makes the whole line `None`. */
  lemma ParseLineOverflow(a: string, b: string, name: string)
    requires IsUpperHexRun(a) && IsUpperHexRun(b) && '\n' !in name
    requires HexValue(a) > U32_MAX || HexValue(b) > U32_MAX
    ensures ParseLine(a + ".." + b + "; " + name) == None
  {
    CapturesComplete(a, b, name);
  }

  lemma HexValueExamples()
    ensures HexValue("0000") == 0 && HexValue("007F") == 127
  {
    assert "0000"[..3] == "000" && "000"[..2] == "00" && "00"[..1] == "0" && "0"[..0] == "";
    assert "007F"[..3] == "007" && "007"[..2] == "00";
  }

  // Lines from and around Blocks.txt.

  /** The first data line of Blocks.txt. */
  lemma ParseBasicLatin()
    ensures ParseLine("0000..007F; Basic Latin") == Some(UnicodeBlock("Basic Latin", (0, 127)))
  {
    HexValueExamples();
    ParseLineComplete("0000..007F; Basic Latin", "0000", "007F", "Basic Latin");
  }

  /** A reversed range is accepted: `start <= end` is not checked. */
  lemma ParseReversedRange()
    ensures ParseLine("007F..0000; X") == Some(UnicodeBlock("X", (127, 0)))
  {
    HexValueExamples();
    ParseLineComplete("007F..0000; X", "007F", "0000", "X");
  }

  /** The name may be empty. */
  lemma ParseEmptyName()
    ensures ParseLine("0000..007F; ") == Some(UnicodeBlock("", (0, 127)))
  {
    HexValueExamples();
    ParseLineComplete("0000..007F; ", "0000", "007F", "");
  }

  lemma RejectLowerCaseDigits()
    ensures ParseLine("0000..007f; Basic Latin") == None
  {
    var t := "f; Basic Latin";
    assert "0000..007f; Basic Latin" == "0000" + ".." + "007" + t;
    assert t[..2][0] == 'f';
    ParseLineNeedsSeparator("0000", "007", t);
  }

  lemma RejectHexPrefix()
    ensures ParseLine("0x0000..0x007F; Basic Latin") == None
  {
    var t := "x0000..0x007F; Basic Latin";
    assert "0x0000..0x007F; Basic Latin" == "0" + t;
    assert t[..2][0] == 'x';
    ParseLineNeedsDoubleDot("0", t);
  }

  lemma RejectSingleDot()
    ensures ParseLine("0000.007F; Basic Latin") == None
  {
    var t := ".007F; Basic Latin";
    assert "0000.007F; Basic Latin" == "0000" + t;
    assert t[..2][1] == '0';
    ParseLineNeedsDoubleDot("0000", t);
  }

  lemma RejectSemicolonWithoutSpace()
    ensures ParseLine("0000..007F;Basic Latin") == None
  {
    var t := ";Basic Latin";
    assert "0000..007F;Basic Latin" == "0000" + ".." + "007F" + t;
    assert t[..2][1] == 'B';
    ParseLineNeedsSeparator("0000", "007F", t);
  }

  /** A leading space, a comment line and a blank line. */
  lemma RejectNonDataLines()
    ensures ParseLine(" 0000..007F; Basic Latin") == None
    ensures ParseLine("# Blocks-10.0.0.txt") == None
    ensures ParseLine("") == None
  {
  }

  const DefPrefix: string := "(defconst unicode-block-"
  const RangeOpen: string := " '(#x"
  const RangeSep: string := " . #x"
  const RangeClose: string := "))"

  /** `UnicodeBlock::to_elisp`. */
  function ToElisp(block: UnicodeBlock): string {
    DefPrefix + (Identifier(block.name) + (RangeOpen + (ToHex(block.range.0)
      + (RangeSep + (ToHex(block.range.1) + RangeClose)))))
  }

  /** Position of the first `c` in `s`, or `|s|` when there is none. */
  function IndexOf(s: string, c: char): (k: nat)
    ensures k <= |s|
    ensures forall i :: 0 <= i < k ==> s[i] != c
    ensures k < |s| ==> s[k] == c
  {
    if s == [] || s[0] == c then 0 else 1 + IndexOf(s[1..], c)
  }

  lemma IndexOfAfter(a: string, t: string, c: char)
    requires c !in a && |t| > 0 && t[0] == c
    ensures IndexOf(a + t, c) == |a|
  {
    assert forall i :: 0 <= i < |a| ==> (a + t)[i] == a[i];
    assert (a + t)[|a|] == c;
  }

  /** Reads `<h1> . #x<h2>))`, the text after the opening `'(#x` of a definition. */
  function ReadRange(s: string): Option<(nat, nat)> {
    var j := IndexOf(s, ' ');
    var rest := s[j..];
    if !StartsWith(rest, RangeSep) then None
    else
      var t := rest[|RangeSep|..];
      var m := IndexOf(t, ')');
      if t[m..] != RangeClose || !IsHexString(s[..j]) || !IsHexString(t[..m]) then None
      else Some((HexValue(s[..j]), HexValue(t[..m])))
  }

  /**
   * Reads a `defconst` line back: the identifier (up to the first space) and
   * the two hex bounds. This is the reader the generated file is written for.
   */
  function ReadDefinition(line: string): Option<(string, nat, nat)> {
    if !StartsWith(line, DefPrefix) then None
    else
      var s := line[|DefPrefix|..];
      var k := IndexOf(s, ' ');
      var rest := s[k..];
      if !StartsWith(rest, RangeOpen) then None
      else
        match ReadRange(rest[|RangeOpen|..])
        case None => None
        case Some((start, end)) => Some((s[..k], start, end))
  }

  lemma ReadRangeOfHex(h1: string, h2: string)
    requires IsCanonicalHex(h1) && IsCanonicalHex(h2)
    ensures ReadRange(h1 + (RangeSep + (h2 + RangeClose))) == Some((HexValue(h1), HexValue(h2)))
  {
    var t := h2 + RangeClose;
    var rest := RangeSep + t;
    var s := h1 + rest;
    assert ' ' !in h1;
    IndexOfAfter(h1, rest, ' ');
    assert s[|h1|..] == rest && s[..|h1|] == h1;
    assert rest[..|RangeSep|] == RangeSep && rest[|RangeSep|..] == t;
    assert ')' !in h2;
    IndexOfAfter(h2, RangeClose, ')');
    assert t[|h2|..] == RangeClose && t[..|h2|] == h2;
  }

  lemma ReadDefinitionOfParts(id: string, r: string)
    requires ' ' !in id
    ensures ReadDefinition(DefPrefix + (id + (RangeOpen + r))) ==
      match ReadRange(r)
      case None => None
      case Some((start, end)) => Some((id, start, end))
  {
    var rest := RangeOpen + r;
    var s := id + rest;
    var line := DefPrefix + s;
    assert line[..|DefPrefix|] == DefPrefix && line[|DefPrefix|..] == s;
    IndexOfAfter(id, rest, ' ');
    assert s[|id|..] == rest && s[..|id|] == id;
    assert rest[..|RangeOpen|] == RangeOpen && rest[|RangeOpen|..] == r;
  }

  /**
   * Round trip of `to_elisp`: the rendered line reads back as the block's
   * identifier and its two bounds, so the `#x` literals denote `range.0` and
   * `range.1` exactly.
   */
  lemma ReadDefinitionOfToElisp(block: UnicodeBlock)
    ensures ReadDefinition(ToElisp(block)) ==
      Some((Identifier(block.name), block.range.0 as nat, block.range.1 as nat))
  {
    var id, h1, h2 := Identifier(block.name), ToHex(block.range.0), ToHex(block.range.1);
    IdentifierAt(block.name);
    ReadRangeOfHex(h1, h2);
    ReadDefinitionOfParts(id, h1 + (RangeSep + (h2 + RangeClose)));
  }

  /** Two blocks render to the same line exactly when their identifiers and ranges agree. */
  lemma ToElispSameLine(b1: UnicodeBlock, b2: UnicodeBlock)
    ensures ToElisp(b1) == ToElisp(b2) <==>
      Identifier(b1.name) == Identifier(b2.name) && b1.range == b2.range
  {
    if ToElisp(b1) == ToElisp(b2) {
      ReadDefinitionOfToElisp(b1);
      ReadDefinitionOfToElisp(b2);
    }
  }

  /** The first block of Blocks.txt renders as `(defconst unicode-block-basic-latin '(#x0 . #x7f))`. */
  lemma ToElispExample()
    ensures ToElisp(UnicodeBlock("Basic Latin", (0, 127)))
      == "(defconst unicode-block-basic-latin '(#x0 . #x7f))"
  {
    assert Identifier("Basic Latin") == "basic-latin";
    assert ToHex(0) == "0" && ToHex(127) == "7f";
    BasicLatinLine();
  }

  lemma BasicLatinLine()
    ensures DefPrefix + ("basic-latin" + (RangeOpen + ("0" + (RangeSep + ("7f" + RangeClose)))))
      == "(defconst unicode-block-basic-latin '(#x0 . #x7f))"
  {
  }

  /** Spaces become hyphens and digits and punctuation survive: `Latin-1 Supplement`. */
  lemma IdentifierExample()
    ensures Identifier("Latin-1 Supplement") == "latin-1-supplement"
  {
  }
}
