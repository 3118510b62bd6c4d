/** `signatureOf`: the fingerprint under which two exception blocks count as
    the same recurring failure. The block text is normalised, split into
    lines, and only stack-frame lines (with their arguments elided) and lines
    naming an exception or error (lower-cased) are kept; a block with none of
    them is fingerprinted by its whole lower-cased normalised text. */
module Signatures {
  import opened Seqs
  import opened JavaText
  import opened BlockScanner

  /** `line.startsWith("\tat ")` */
  predicate IsFrameLine(line: string)
  {
    StartsWith(line, "\tat ")
  }

  /** `line.contains("Exception") || line.contains("Error")`, case-sensitive. */
  predicate NamesFailure(line: string)
  {
    Contains(line, "Exception") || Contains(line, "Error")
  }

  /** Lines that take part in a signature. */
  const Retained: string -> bool := line => IsFrameLine(line) || NamesFailure(line)

  /** How a retained line appears in the signature. */
  function Compacted(lib: Library, line: string): string
  {
    if IsFrameLine(line) then lib.collapseArguments(line) else lib.toLower(line)
  }

  /** Every line compacted, in order. */
  function CompactAll(lib: Library, lines: seq<string>): (r: seq<string>)
    ensures |r| == |lines|
    ensures forall j :: 0 <= j < |lines| ==> r[j] == Compacted(lib, lines[j])
    decreases |lines|
  {
    if lines == [] then [] else CompactAll(lib, DropLast(lines)) + [Compacted(lib, Last(lines))]
  }

  /** The lines, each followed by a newline. */
  function Terminated(lines: seq<string>): (r: string)
    ensures r == [] <==> lines == []
    ensures |r| >= |lines|
    decreases |lines|
  {
    if lines == [] then [] else Terminated(DropLast(lines)) + Last(lines) + "\n"
  }

  /** The normalised text of a block. */
  function Normalized(lib: Library, b: Block): string
  {
    lib.normalize(lib.joinLines(b))
  }

  /** The signature: the retained lines of the normalised text, compacted and
      newline-terminated, then trimmed; or the lower-cased normalised text when
      no line is retained. */
  function Signature(lib: Library, b: Block): string
  {
    var s := Normalized(lib, b);
    var kept := Filter(lib.splitLines(s), Retained);
    if kept == [] then lib.toLower(s) else lib.trim(Terminated(CompactAll(lib, kept)))
  }

  function SignatureKey(lib: Library): Block -> string
  {
    b => Signature(lib, b)
  }

  /** Lines 45-69: builds the signature line by line in a string builder. */
  method SignatureOf(lib: Library, block: Block) returns (sig: string)
    ensures sig == Signature(lib, block)
  {
    var s := lib.normalize(lib.joinLines(block));
    var sb: string := "";
    var lines := lib.splitLines(s);
    for i := 0 to |lines|
      invariant sb == Terminated(CompactAll(lib, Filter(lines[..i], Retained)))
    {
      PrefixStep(lines, i);
      var line := lines[i];
      RenderedStep(lib, lines, i);
      if StartsWith(line, "\tat ") {
        // keep class and method only
        var cleaned := lib.collapseArguments(line);
        assert Retained(line) && cleaned == Compacted(lib, line);
        sb := sb + cleaned + "\n";
      } else if Contains(line, "Exception") || Contains(line, "Error") {
        assert Retained(line) && lib.toLower(line) == Compacted(lib, line);
        sb := sb + lib.toLower(line) + "\n";
      } else {
        assert !Retained(line);
      }
    }
    assert lines[..|lines|] == lines;
    if |sb| == 0 {
      return lib.toLower(s);
    }
    return lib.trim(sb);
  }

  /** What one more line adds to the builder. */
  lemma RenderedStep(lib: Library, lines: seq<string>, i: nat)
    requires i < |lines|
    ensures Retained(lines[i]) ==>
              Terminated(CompactAll(lib, Filter(lines[..i + 1], Retained))) ==
              Terminated(CompactAll(lib, Filter(lines[..i], Retained))) + Compacted(lib, lines[i]) + "\n"
    ensures !Retained(lines[i]) ==>
              Terminated(CompactAll(lib, Filter(lines[..i + 1], Retained))) ==
              Terminated(CompactAll(lib, Filter(lines[..i], Retained)))
  {
    PrefixStep(lines, i);
    var kept := Filter(lines[..i], Retained);
    if Retained(lines[i]) {
      assert Filter(lines[..i + 1], Retained) == kept + [lines[i]];
      assert DropLast(kept + [lines[i]]) == kept;
      var c := CompactAll(lib, kept);
      assert CompactAll(lib, kept + [lines[i]]) == c + [Compacted(lib, lines[i])];
      assert DropLast(c + [Compacted(lib, lines[i])]) == c;
    } else {
      assert Filter(lines[..i + 1], Retained) == kept;
    }
  }

  /** The builder stays empty exactly when no line of the normalised text is
      retained, so the fallback of lines 65-67 is taken exactly for blocks
      without a frame line and without a failure name. */
  lemma BuilderEmptyIffNothingRetained(lib: Library, lines: seq<string>)
    ensures Terminated(CompactAll(lib, Filter(lines, Retained))) == [] <==>
            forall j :: 0 <= j < |lines| ==> !Retained(lines[j])
  {
    var kept := Filter(lines, Retained);
    if kept != [] {
      assert kept[0] in lines && Retained(kept[0]);
    }
  }

  /** Blocks whose normalised texts retain the same non-empty list of lines
      share a signature, however their other lines differ. This only shows that
      the signature depends on nothing but the retained lines; which
      differences (timestamps, thread ids, addresses, long numbers) the
      normalisation erases is left to `lib.normalize` and is not proved. */
  lemma SameRetainedLinesSameSignature(lib: Library, b1: Block, b2: Block)
    requires Filter(lib.splitLines(Normalized(lib, b1)), Retained) == Filter(lib.splitLines(Normalized(lib, b2)), Retained)
    requires Filter(lib.splitLines(Normalized(lib, b1)), Retained) != []
    ensures Signature(lib, b1) == Signature(lib, b2)
  {
  }
}
