/** `filterDeveloperExceptions`: keeps the blocks that point at a defect in the
    code and drops the business failures that the adapter reports with an
    error code, description or reason and no Java failure of its own. */
module DeveloperFilter {
  import opened Seqs
  import opened JavaText
  import opened BlockScanner

  /** The block looks like an adapter business error (lines 219-221). */
  predicate LooksAdapter(pt: Patterns, text: string)
  {
    pt.errorCode(text) || pt.adapterDescription(text) || pt.adapterReason(text)
  }

  /** The block names a Java exception or error type, or its text starts with a
      stack frame or a `Caused by:` line (line 231). */
  predicate DeveloperRelevant(pt: Patterns, lib: Library, b: Block)
  {
    var text := lib.joinLines(b);
    pt.javaException(lib.toLower(text)) || pt.stackFrame(text) || pt.causedBy(text)
  }

  function Relevant(pt: Patterns, lib: Library): Block -> bool
  {
    b => DeveloperRelevant(pt, lib, b)
  }

  /** The developer-relevant blocks, in their original order. The adapter test
      of lines 222-229 only ever skips blocks that the test of line 231 would
      skip as well, so the result is exactly the relevant blocks. */
  method FilterDeveloperExceptions(pt: Patterns, lib: Library, blocks: seq<Block>)
    returns (out: seq<Block>)
    ensures out == Filter(blocks, Relevant(pt, lib))
    ensures forall i :: 0 <= i < |out| ==> out[i] in blocks && DeveloperRelevant(pt, lib, out[i])
    ensures forall i :: 0 <= i < |blocks| && DeveloperRelevant(pt, lib, blocks[i]) ==> blocks[i] in out
    ensures IsSubseq(out, blocks)
  {
    out := [];
    for i := 0 to |blocks|
      invariant out == Filter(blocks[..i], Relevant(pt, lib))
    {
      PrefixStep(blocks, i);
      var block := blocks[i];
      var text := lib.joinLines(block);
      var lower := lib.toLower(text);
      var looksAdapter := LooksAdapter(pt, text);
      if looksAdapter {
        var hasStack := pt.stackFrame(text) || pt.causedBy(text);
        var hasJava := pt.javaException(lower);
        if !(hasStack || hasJava) {
          // a business error without a Java failure
          continue;
        }
      }
      var devLike := pt.javaException(lower) || pt.stackFrame(text) || pt.causedBy(text);
      if devLike {
        out := out + [block];
      }
    }
    assert blocks[..|blocks|] == blocks;
    FilterIsSubseq(blocks, Relevant(pt, lib));
  }

  /** A block that looks like an adapter error and shows no Java failure is
      never kept, whatever else surrounds it. */
  lemma AdapterOnlyBlocksDropped(pt: Patterns, lib: Library, blocks: seq<Block>, b: Block)
    requires LooksAdapter(pt, lib.joinLines(b)) && !DeveloperRelevant(pt, lib, b)
    ensures b !in Filter(blocks, Relevant(pt, lib))
  {
  }

  /** Filtering the developer blocks again changes nothing. */
  lemma FilterDeveloperIdempotent(pt: Patterns, lib: Library, blocks: seq<Block>)
    ensures Filter(Filter(blocks, Relevant(pt, lib)), Relevant(pt, lib)) == Filter(blocks, Relevant(pt, lib))
  {
    FilterIdempotent(blocks, Relevant(pt, lib));
  }
}
