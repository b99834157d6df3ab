/**
 * The body of `main` once Blocks.txt has been fetched: every line that parses
 * is printed as a `defconst` line, in document order, and then a blank line
 * and `(provide 'unicode-block)` close the file. Output is a sequence of
 * printed lines.
 */
module Generator {
  import opened Wrappers
  import opened Ascii
  import opened Uniblock

  const Provide: string := "(provide 'unicode-block)"

  /** The blocks of the lines that parse, in document order. */
  function Blocks(lines: seq<string>): seq<UnicodeBlock> {
    if lines == [] then []
    else
      var prev := Blocks(lines[..|lines| - 1]);
      match ParseLine(lines[|lines| - 1])
      case Some(block) => prev + [block]
      case None => prev
  }

  /** One `defconst` line per block, in order. */
  function Definitions(blocks: seq<UnicodeBlock>): seq<string> {
    seq(|blocks|, i requires 0 <= i < |blocks| => ToElisp(blocks[i]))
  }

  /** The whole printed output: the definitions, then `"\n(provide 'unicode-block)"` as two lines. */
  function Document(lines: seq<string>): seq<string> {
    Definitions(Blocks(lines)) + ["", Provide]
  }

  /** The `for` loop of `main`, printing as it goes; `out` collects what is printed. */
  method Generate(lines: seq<string>) returns (out: seq<string>)
    ensures out == Document(lines)
  {
    out := [];
    for i := 0 to |lines|
      invariant out == Definitions(Blocks(lines[..i]))
    {
      assert lines[..i + 1][..i] == lines[..i];
      match ParseLine(lines[i]) {
        case Some(block) =>
          out := out + [ToElisp(block)];
        case None =>
      }
    }
    assert lines[..|lines|] == lines;
    out := out + ["", Provide];
  }

  /** Parsing distributes over concatenation: each part keeps its blocks and their order. */
  lemma {:induction false} BlocksAppend(a: seq<string>, b: seq<string>)
    ensures Blocks(a + b) == Blocks(a) + Blocks(b)
  {
    if b == [] {
      assert a + b == a;
    } else {
      var init := b[..|b| - 1];
      assert (a + b)[..|a + b| - 1] == a + init;
      BlocksAppend(a, init);
    }
  }

  /** A single line contributes its block when it parses and nothing otherwise. */
  lemma BlocksOfLine(line: string)
    ensures Blocks([line]) == match ParseLine(line) case Some(block) => [block] case None => []
  {
  }

  /** Lines that do not parse can be removed or inserted anywhere without changing the output. */
  lemma DocumentIgnoresRejectedLine(a: seq<string>, line: string, b: seq<string>)
    requires ParseLine(line) == None
    ensures Document(a + [line] + b) == Document(a + b)
  {
    BlocksAppend(a + [line], b);
    BlocksAppend(a, [line]);
    BlocksOfLine(line);
    BlocksAppend(a, b);
  }

  /** Positions of the lines that parse, in increasing order. */
  function AcceptedIndices(lines: seq<string>): seq<nat> {
    if lines == [] then []
    else
      var prev := AcceptedIndices(lines[..|lines| - 1]);
      if ParseLine(lines[|lines| - 1]).Some? then prev + [|lines| - 1] else prev
  }

  /** The `k`-th block comes from line `AcceptedIndices(lines)[k]`. */
  lemma {:induction false} AcceptedIndicesSource(lines: seq<string>)
    ensures |AcceptedIndices(lines)| == |Blocks(lines)|
    ensures forall k :: 0 <= k < |AcceptedIndices(lines)| ==>
      AcceptedIndices(lines)[k] < |lines| && ParseLine(lines[AcceptedIndices(lines)[k]]) == Some(Blocks(lines)[k])
  {
    if lines != [] {
      var n := |lines| - 1;
      var init := lines[..n];
      AcceptedIndicesSource(init);
      var prev, bsPrev := AcceptedIndices(init), Blocks(init);
      var r, bs := AcceptedIndices(lines), Blocks(lines);
      forall k | 0 <= k < |prev|
        ensures r[k] < |lines| && ParseLine(lines[r[k]]) == Some(bs[k])
      {
        assert r[k] == prev[k] && bs[k] == bsPrev[k] && init[prev[k]] == lines[prev[k]];
      }
    }
  }

  /** The accepted positions increase, so document order is kept. */
  lemma {:induction false} AcceptedIndicesIncreasing(lines: seq<string>)
    ensures forall k :: 0 <= k < |AcceptedIndices(lines)| ==> AcceptedIndices(lines)[k] < |lines|
    ensures forall k, l :: 0 <= k < l < |AcceptedIndices(lines)| ==>
      AcceptedIndices(lines)[k] < AcceptedIndices(lines)[l]
  {
    if lines != [] {
      var init := lines[..|lines| - 1];
      AcceptedIndicesIncreasing(init);
    }
  }

  /** Every line that parses is among the accepted positions: nothing that parses is dropped. */
  lemma {:induction false} AcceptedIndicesComplete(lines: seq<string>)
    ensures forall i :: 0 <= i < |lines| && ParseLine(lines[i]).Some? ==> i in AcceptedIndices(lines)
  {
    if lines != [] {
      var n := |lines| - 1;
      var init := lines[..n];
      AcceptedIndicesComplete(init);
      forall i | 0 <= i < |lines| && ParseLine(lines[i]).Some? ensures i in AcceptedIndices(lines) {
        if i < n {
          assert init[i] == lines[i];
        }
      }
    }
  }

  /** There are never more definition lines than input lines. */
  lemma {:induction false} DefinitionCountBound(lines: seq<string>)
    ensures |Blocks(lines)| <= |lines|
  {
    if lines != [] {
      DefinitionCountBound(lines[..|lines| - 1]);
    }
  }

  /** When every line parses, there is one definition line per input line. */
  lemma {:induction false} DefinitionCountAllAccepted(lines: seq<string>)
    requires forall i :: 0 <= i < |lines| ==> ParseLine(lines[i]).Some?
    ensures |Blocks(lines)| == |lines|
  {
    if lines != [] {
      var init := lines[..|lines| - 1];
      assert forall i :: 0 <= i < |init| ==> init[i] == lines[i];
      DefinitionCountAllAccepted(init);
    }
  }

  /** A line that does not parse leaves the output with fewer definition lines than input lines. */
  lemma DefinitionCountRejected(lines: seq<string>, i: nat)
    requires i < |lines| && ParseLine(lines[i]) == None
    ensures |Blocks(lines)| < |lines|
  {
    var before, after := lines[..i], lines[i + 1..];
    assert lines == before + [lines[i]] + after;
    BlocksAppend(before + [lines[i]], after);
    BlocksAppend(before, [lines[i]]);
    BlocksOfLine(lines[i]);
    DefinitionCountBound(before);
    DefinitionCountBound(after);
  }

  /** A document of comments and blank lines only yields just the closing lines. */
  lemma {:induction false} DocumentOfNoData(lines: seq<string>)
    requires forall i :: 0 <= i < |lines| ==> ParseLine(lines[i]) == None
    ensures Document(lines) == ["", Provide]
  {
    if lines != [] {
      var init := lines[..|lines| - 1];
      assert forall i :: 0 <= i < |init| ==> init[i] == lines[i];
      DocumentOfNoData(init);
    }
  }

  /**
   * Shape of the output: one definition line per accepted line, each the
   * rendering of its block and readable back as that block's identifier and
   * range, then an empty line and `(provide 'unicode-block)`.
   */
  lemma DocumentShape(lines: seq<string>)
    ensures |Document(lines)| == |Blocks(lines)| + 2
    ensures Document(lines)[|Document(lines)| - 2..] == ["", Provide]
    ensures forall k :: 0 <= k < |Blocks(lines)| ==>
      ReadDefinition(Document(lines)[k]) ==
        Some((Identifier(Blocks(lines)[k].name), Blocks(lines)[k].range.0 as nat, Blocks(lines)[k].range.1 as nat))
  {
    var bs := Blocks(lines);
    forall k | 0 <= k < |bs|
      ensures ReadDefinition(Document(lines)[k]) ==
        Some((Identifier(bs[k].name), bs[k].range.0 as nat, bs[k].range.1 as nat))
    {
      ReadDefinitionOfToElisp(bs[k]);
    }
  }

  lemma BlocksExample()
    ensures Blocks(["# Blocks-10.0.0.txt", "0000..007F; Basic Latin"]) == [UnicodeBlock("Basic Latin", (0, 127))]
  {
    var comment, data := "# Blocks-10.0.0.txt", "0000..007F; Basic Latin";
    RejectNonDataLines();
    ParseBasicLatin();
    BlocksOfLine(comment);
    BlocksOfLine(data);
    BlocksAppend([comment], [data]);
    assert [comment] + [data] == [comment, data];
  }

  /** A two-line excerpt of Blocks.txt: the header comment is dropped and the data line rendered. */
  lemma DocumentExample()
    ensures Document(["# Blocks-10.0.0.txt", "0000..007F; Basic Latin"]) ==
      ["(defconst unicode-block-basic-latin '(#x0 . #x7f))", "", Provide]
  {
    var block := UnicodeBlock("Basic Latin", (0, 127));
    BlocksExample();
    ToElispExample();
    assert Definitions([block]) == [ToElisp(block)];
  }
}
