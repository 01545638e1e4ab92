/** The per-file transform: every scanned line of a source file is rewritten
    and appended, followed by a line break, to its destination file. */
module Transform {
  import opened Wrappers
  import opened Text
  import opened Paths
  import opened Patterns
  import Rewriter
  import SinglePass

  /** A destination file: where it is and what ends up in it. */
  datatype OutputFile = OutputFile(path: string, content: string)

  /** The line break `appendToFile` writes after every line. */
  const LineBreak: char := '\n'

  /** Neither placeholder holds a line break. */
  lemma TokensHaveNoLineBreak()
    ensures forall k :: k in Replacers ==> LineBreak !in k
  {
    ReplacersKeys();
    assert LineBreak !in AmetToken && LineBreak !in EnimToken;
  }

  /** One iteration order of the replacer map per scanned line: Go may pick a
      different one each time the loop of `anon_file` ranges over the map. */
  predicate LineOrders(orders: seq<seq<string>>, n: nat) {
    && |orders| == n
    && forall i :: 0 <= i < n ==> Rewriter.IsIterationOrder(orders[i], Replacers)
  }

  /** Every line rewritten by the rule loop as written, each under its own
      iteration order: one output line per input line, and no line break
      where the input line had none. */
  function LoopRewritten(lines: seq<string>, orders: seq<seq<string>>): (r: seq<string>)
    requires LineOrders(orders, |lines|)
    ensures |r| == |lines|
    ensures forall i :: 0 <= i < |lines| && LineBreak !in lines[i] ==> LineBreak !in r[i]
  {
    LoopKeepsLineBreaksOut(lines, orders);
    seq(|lines|, i requires 0 <= i < |lines| => Rewriter.RewriteInOrder(lines[i], orders[i]))
  }

  /** The rule loop never introduces a line break. */
  lemma LoopKeepsLineBreaksOut(lines: seq<string>, orders: seq<seq<string>>)
    requires LineOrders(orders, |lines|)
    ensures forall i :: 0 <= i < |lines| && LineBreak !in lines[i] ==>
              LineBreak !in Rewriter.RewriteInOrder(lines[i], orders[i])
  {
    TokensHaveNoLineBreak();
    forall i | 0 <= i < |lines| && LineBreak !in lines[i]
      ensures LineBreak !in Rewriter.RewriteInOrder(lines[i], orders[i])
    {
      Rewriter.CharacterNotIntroduced(lines[i], orders[i], LineBreak);
    }
  }

  /** Every line rewritten by the fixed enim-then-amet rewrite: one output line
      per input line, and no line break where the input line had none. */
  function Rewritten(lines: seq<string>): (r: seq<string>)
    ensures |r| == |lines|
    ensures forall i :: 0 <= i < |lines| && LineBreak !in lines[i] ==> LineBreak !in r[i]
  {
    PassKeepsLineBreaksOut(lines);
    seq(|lines|, i requires 0 <= i < |lines| => SinglePass.Rewrite(lines[i]))
  }

  /** The fixed-order rewrite never introduces a line break. */
  lemma PassKeepsLineBreaksOut(lines: seq<string>)
    ensures forall i :: 0 <= i < |lines| && LineBreak !in lines[i] ==> LineBreak !in SinglePass.Rewrite(lines[i])
  {
    TokensHaveNoLineBreak();
    ReplacersKeys();
    forall i | 0 <= i < |lines| && LineBreak !in lines[i] ensures LineBreak !in SinglePass.Rewrite(lines[i]) {
      SinglePass.CharacterNotIntroduced(lines[i], SinglePass.Declared, LineBreak);
    }
  }

  /** When Go happens to iterate enim rule first for every line, the loop as
      written gives exactly the fixed-order rewrite. */
  lemma LoopEnimFirst(lines: seq<string>, orders: seq<seq<string>>)
    requires |orders| == |lines|
    requires forall i :: 0 <= i < |orders| ==> orders[i] == [EnimToken, AmetToken]
    ensures LineOrders(orders, |lines|)
    ensures LoopRewritten(lines, orders) == Rewritten(lines)
  {
    Rewriter.IterationOrders([EnimToken, AmetToken]);
    forall i | 0 <= i < |lines| ensures LoopRewritten(lines, orders)[i] == Rewritten(lines)[i] {
      SinglePass.AgreesWithEnimFirst(lines[i]);
    }
  }

  /** When no line holds `ametnim` or `Ametnim`, the loop as written gives
      the fixed-order rewrite whatever order Go picks for each line, so the
      file's contents do not depend on the map order. */
  lemma LoopWithoutAmetnim(lines: seq<string>, orders: seq<seq<string>>)
    requires LineOrders(orders, |lines|)
    requires forall i :: 0 <= i < |lines| ==> SinglePass.NoAmetNim(lines[i])
    ensures LoopRewritten(lines, orders) == Rewritten(lines)
  {
    forall i | 0 <= i < |lines| ensures LoopRewritten(lines, orders)[i] == Rewritten(lines)[i] {
      SinglePass.OrderMattersOnlyForAmetnim(lines[i], orders[i]);
    }
  }

  /** The destination file of the source file at `rel` relative to the
      source root: at the same relative path under the target root, holding
      each line of the fixed-order rewrite followed by a line break. An empty
      source gives an empty file; otherwise the file ends in a break. */
  function MirrorFile(rel: string, targetPath: string, lines: seq<string>): (f: OutputFile)
    ensures |lines| == 0 <==> f.content == ""
    ensures |lines| > 0 ==> f.content[|f.content| - 1] == LineBreak
  {
    OutputFile(MirrorPath(rel, targetPath, Separator), Terminated(Rewritten(lines), LineBreak))
  }

  /** `anon_file` as written: for each scanned line, run the rule loop under
      that line's iteration order, then append the result plus a line break
      to the destination, which `appendToFile` computes and opens afresh for
      every line. A file without lines never reaches `appendToFile`, so no
      destination file is created for it. When the lines hold no line break,
      the destination splits back into exactly the loop's output lines. */
  method AnonFile(srcPath: string, targetPath: string, lines: seq<string>, orders: seq<seq<string>>)
    returns (file: Option<OutputFile>)
    requires LineOrders(orders, |lines|)
    ensures file.None? <==> |lines| == 0
    ensures file.Some? ==> file.value.path == DestinationOf(srcPath, targetPath, Separator).path
    ensures file.Some? ==> file.value.content == Terminated(LoopRewritten(lines, orders), LineBreak)
    ensures file.Some? && (forall i :: 0 <= i < |lines| ==> LineBreak !in lines[i]) ==>
              Split(file.value.content, LineBreak) == LoopRewritten(lines, orders) + [""]
  {
    file := None;
    var written := "";
    var i := 0;
    while i < |lines|
      invariant i <= |lines|
      invariant written == Terminated(LoopRewritten(lines[..i], orders[..i]), LineBreak)
      invariant file.None? <==> i == 0
      invariant file.Some? ==> file.value == OutputFile(DestinationOf(srcPath, targetPath, Separator).path, written)
    {
      var dest := DestinationOf(srcPath, targetPath, Separator);
      written := written + Rewriter.RewriteInOrder(lines[i], orders[i]) + [LineBreak];
      file := Some(OutputFile(dest.path, written));
      LoopStep(lines, orders, i);
      i := i + 1;
    }
    assert lines[..i] == lines && orders[..i] == orders;
    LoopFileSplits(lines, orders);
  }

  /** The loop's output, each line followed by a break, splits back into
      those lines when the scanned lines hold no line break. */
  lemma LoopFileSplits(lines: seq<string>, orders: seq<seq<string>>)
    requires LineOrders(orders, |lines|)
    ensures (forall i :: 0 <= i < |lines| ==> LineBreak !in lines[i]) ==>
              Split(Terminated(LoopRewritten(lines, orders), LineBreak), LineBreak) == LoopRewritten(lines, orders) + [""]
  {
    if forall i :: 0 <= i < |lines| ==> LineBreak !in lines[i] {
      SplitTerminated(LoopRewritten(lines, orders), LineBreak);
    }
  }

  /** One more line scanned appends its loop output plus a line break. */
  lemma LoopStep(lines: seq<string>, orders: seq<seq<string>>, i: nat)
    requires LineOrders(orders, |lines|) && i < |lines|
    ensures LineOrders(orders[..i], i) && LineOrders(orders[..i + 1], i + 1)
    ensures Terminated(LoopRewritten(lines[..i + 1], orders[..i + 1]), LineBreak)
         == Terminated(LoopRewritten(lines[..i], orders[..i]), LineBreak)
            + Rewriter.RewriteInOrder(lines[i], orders[i]) + [LineBreak]
  {
    LoopOneMore(lines, orders, i);
    TerminatedAppend(LoopRewritten(lines[..i], orders[..i]), Rewriter.RewriteInOrder(lines[i], orders[i]), LineBreak);
  }

  /** The loop output of one more scanned line is the earlier output and that
      line's own. */
  lemma LoopOneMore(lines: seq<string>, orders: seq<seq<string>>, i: nat)
    requires LineOrders(orders, |lines|) && i < |lines|
    ensures LineOrders(orders[..i], i) && LineOrders(orders[..i + 1], i + 1)
    ensures LoopRewritten(lines[..i + 1], orders[..i + 1])
         == LoopRewritten(lines[..i], orders[..i]) + [Rewriter.RewriteInOrder(lines[i], orders[i])]
  {
    var pre, pre1 := lines[..i], lines[..i + 1];
    var ord, ord1 := orders[..i], orders[..i + 1];
    assert LineOrders(ord, i) && LineOrders(ord1, i + 1);
    var before := LoopRewritten(pre, ord);
    var after := LoopRewritten(pre1, ord1);
    var extra := before + [Rewriter.RewriteInOrder(lines[i], orders[i])];
    forall j | 0 <= j < i + 1 ensures after[j] == extra[j] {
      assert pre1[j] == lines[j] && ord1[j] == orders[j];
      if j < i {
        assert pre[j] == lines[j] && ord[j] == orders[j];
      }
    }
  }

  /** Every source file, including one with no lines, gets a destination
      file; files at distinct relative paths get distinct ones, and under a
      one-segment source root the place is the one `appendToFile` computes.
      Splitting the file at line breaks gives back the rewritten lines in
      order, then the empty piece after the final break, so the destination
      has exactly as many lines as were scanned. */
  lemma MirroredFile(root: string, rel: string, rel2: string, targetPath: string, lines: seq<string>)
    requires forall i :: 0 <= i < |lines| ==> LineBreak !in lines[i]
    ensures Separator !in root ==>
              MirrorFile(rel, targetPath, lines).path == DestinationOf(root + [Separator] + rel, targetPath, Separator).path
    ensures rel != rel2 ==> MirrorFile(rel, targetPath, lines).path != MirrorFile(rel2, targetPath, lines).path
    ensures Split(MirrorFile(rel, targetPath, lines).content, LineBreak) == Rewritten(lines) + [""]
    ensures |Split(MirrorFile(rel, targetPath, lines).content, LineBreak)| == |lines| + 1
  {
    if Separator !in root {
      MirrorsRelativePath(root, rel, targetPath, Separator);
    }
    MirrorPathInjective(rel, rel2, targetPath, Separator);
    SplitTerminated(Rewritten(lines), LineBreak);
  }

  /** `src/a.txt` is mirrored to `out/a.txt`. */
  lemma ExamplePath(srcPath: string, targetPath: string)
    requires srcPath == "src/a.txt" && targetPath == "out"
    ensures DestinationOf(srcPath, targetPath, Separator).path == "out/a.txt"
  {
    var root, rel := srcPath[..3], srcPath[4..];
    assert srcPath == root + [Separator] + rel;
    assert Separator !in root;
    MirrorsRelativePath(root, rel, targetPath, Separator);
  }

  /** Two lines, each followed by a line break. */
  lemma TerminatedPair(r: seq<string>)
    requires |r| == 2
    ensures Terminated(r, LineBreak) == r[0] + [LineBreak] + r[1] + [LineBreak]
  {
    var tail := r[1..];
    assert tail[0] == r[1] && tail[1..] == [];
    assert Terminated(tail, LineBreak) == r[1] + [LineBreak];
  }

  /** A two-line file `a.txt` mirrored under `out`. */
  lemma ExampleFile(rel: string, targetPath: string, lines: seq<string>)
    requires rel == "a.txt" && targetPath == "out"
    requires lines == ["amet", "Enim"]
    ensures MirrorFile(rel, targetPath, lines).path == "out/a.txt"
    ensures MirrorFile(rel, targetPath, lines).content
         == AmetToken + "\n" + EnimToken + "\n"
  {
    ExampleMirrorPath(rel, targetPath);
    SinglePass.WordBecomesPlaceholder(lines[0]);
    SinglePass.WordBecomesPlaceholder(lines[1]);
    TerminatedPair(Rewritten(lines));
  }

  /** `a.txt` is placed at `out/a.txt`. */
  lemma ExampleMirrorPath(rel: string, targetPath: string)
    requires rel == "a.txt" && targetPath == "out"
    ensures MirrorPath(rel, targetPath, Separator) == "out/a.txt"
  {
  }
}
