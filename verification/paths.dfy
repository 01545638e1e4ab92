/** Where a source file's rewritten lines are written: the string part of
    `appendToFile`. */
module Paths {
  import opened Text

  /** `os.PathSeparator` on Unix-like systems. */
  const Separator: char := '/'

  /** The destination file and the folder created for it. */
  datatype Destination = Destination(path: string, folder: string)

  /** The source path's segments with the target root in place of the first:
      as many segments as the source has, the first being the target root. */
  function NewPathSplit(srcPath: string, targetPath: string, sep: char): (r: seq<string>)
    ensures |r| == |Split(srcPath, sep)| && r[0] == targetPath
  {
    [targetPath] + Split(srcPath, sep)[1..]
  }

  /** Join the new segments for the file; join all but the last for its
      folder. The file lies under the target root, and its path starts with
      its folder. */
  function DestinationOf(srcPath: string, targetPath: string, sep: char): (d: Destination)
    ensures targetPath <= d.path
    ensures d.folder <= d.path
  {
    var newPathSplit := NewPathSplit(srcPath, targetPath, sep);
    JoinDropLast(newPathSplit, sep);
    Destination(Join(newPathSplit, sep), Join(newPathSplit[..|newPathSplit| - 1], sep))
  }

  /** The text after the last separator: the file name. */
  function LastSegment(s: string, sep: char): string {
    Last(Split(s, sep))
  }

  /** Position of the first occurrence of `c` in `s`. */
  function IndexOf(s: string, c: char): (i: nat)
    requires c in s
    ensures i < |s| && s[i] == c && c !in s[..i]
  {
    if s[0] == c then 0
    else
      var i := 1 + IndexOf(s[1..], c);
      assert s[..i] == [s[0]] + s[1..][..i - 1];
      i
  }

  /** The source split at its first separator. */
  lemma SplitAtFirst(src: string, sep: char, i: nat)
    requires i < |src| && src[i] == sep && sep !in src[..i]
    ensures Split(src, sep) == [src[..i]] + Split(src[i + 1..], sep)
  {
    assert src == src[..i] + [sep] + src[i + 1..];
    SplitAround(src[..i], src[i + 1..], sep);
    SplitNoSeparator(src[..i], sep);
  }

  /** A source path without a separator maps to the target root itself, in
      an empty folder. */
  lemma NoSeparatorMapsToTarget(srcPath: string, targetPath: string, sep: char)
    requires sep !in srcPath
    ensures DestinationOf(srcPath, targetPath, sep) == Destination(targetPath, "")
  {
    SplitNoSeparator(srcPath, sep);
  }

  /** Otherwise the destination is the target root followed by everything from
      the source's first separator on. */
  lemma PathAfterFirstSeparator(srcPath: string, targetPath: string, sep: char, i: nat)
    requires i < |srcPath| && srcPath[i] == sep && sep !in srcPath[..i]
    ensures DestinationOf(srcPath, targetPath, sep).path == targetPath + srcPath[i..]
  {
    var b := srcPath[i + 1..];
    SplitAtFirst(srcPath, sep, i);
    var parts := Split(b, sep);
    assert ([targetPath] + parts)[1..] == parts;
    JoinSplit(b, sep);
    assert srcPath[i..] == [sep] + b;
  }

  /** Where a file should land: the target root, a separator, and the file's
      path relative to the walked source root. */
  function MirrorPath(rel: string, targetPath: string, sep: char): string {
    targetPath + [sep] + rel
  }

  /** Distinct relative paths land at distinct destinations. */
  lemma MirrorPathInjective(rel1: string, rel2: string, targetPath: string, sep: char)
    ensures MirrorPath(rel1, targetPath, sep) == MirrorPath(rel2, targetPath, sep) ==> rel1 == rel2
  {
    var n := |targetPath| + 1;
    assert MirrorPath(rel1, targetPath, sep)[n..] == rel1;
    assert MirrorPath(rel2, targetPath, sep)[n..] == rel2;
  }

  /** A file under a one-segment source root lands at the same relative path
      under the target root. */
  lemma MirrorsRelativePath(root: string, rel: string, targetPath: string, sep: char)
    requires sep !in root
    ensures DestinationOf(root + [sep] + rel, targetPath, sep).path == MirrorPath(rel, targetPath, sep)
  {
    var src := root + [sep] + rel;
    assert src[..|root|] == root;
    PathAfterFirstSeparator(src, targetPath, sep, |root|);
    assert src[|root|..] == [sep] + rel;
  }

  /** The first segment of the source path is dropped whatever it is. With
      the source root `.`, the walk yields paths relative to the root, so
      `a.txt` and `b.txt` share the destination `targetPath`, and `x/c.txt`
      and `y/c.txt` share `targetPath/c.txt`. */
  lemma FirstSegmentDropped(first1: string, first2: string, rest: string, targetPath: string, sep: char)
    requires sep !in first1 && sep !in first2
    ensures DestinationOf(first1, targetPath, sep).path == DestinationOf(first2, targetPath, sep).path
    ensures DestinationOf(first1 + [sep] + rest, targetPath, sep).path
         == DestinationOf(first2 + [sep] + rest, targetPath, sep).path
  {
    NoSeparatorMapsToTarget(first1, targetPath, sep);
    NoSeparatorMapsToTarget(first2, targetPath, sep);
    MirrorsRelativePath(first1, rest, targetPath, sep);
    MirrorsRelativePath(first2, rest, targetPath, sep);
  }

  /** When the source has a separator, the destination ends in the source's
      file name. */
  lemma FileNameKept(srcPath: string, targetPath: string, sep: char)
    requires sep in srcPath
    ensures LastSegment(DestinationOf(srcPath, targetPath, sep).path, sep) == LastSegment(srcPath, sep)
  {
    var i := IndexOf(srcPath, sep);
    var b := srcPath[i + 1..];
    PathAfterFirstSeparator(srcPath, targetPath, sep, i);
    assert targetPath + srcPath[i..] == targetPath + [sep] + b;
    SplitAround(targetPath, b, sep);
    SplitAtFirst(srcPath, sep, i);
  }

  /** A source with a separator splits into at least two segments. */
  lemma TwoSegments(srcPath: string, sep: char)
    requires sep in srcPath
    ensures |Split(srcPath, sep)| >= 2
  {
    var i := IndexOf(srcPath, sep);
    SplitAtFirst(srcPath, sep, i);
  }

  /** Replacing the first of two or more segments keeps the last. */
  lemma LastAfterNewHead(head: string, segments: seq<string>)
    requires |segments| >= 2
    ensures |[head] + segments[1..]| >= 2
    ensures Last([head] + segments[1..]) == Last(segments)
  {
  }

  /** With a separator in the source there are at least two new segments, and
      the last of them is the source's file name. */
  lemma LastOfNewPath(srcPath: string, targetPath: string, sep: char)
    requires sep in srcPath
    ensures |NewPathSplit(srcPath, targetPath, sep)| >= 2
    ensures Last(NewPathSplit(srcPath, targetPath, sep)) == LastSegment(srcPath, sep)
  {
    TwoSegments(srcPath, sep);
    LastAfterNewHead(targetPath, Split(srcPath, sep));
  }

  /** When the source has a separator, the destination is its folder, a
      separator and the source's file name. */
  lemma FolderThenName(srcPath: string, targetPath: string, sep: char)
    requires sep in srcPath
    ensures DestinationOf(srcPath, targetPath, sep).path
         == DestinationOf(srcPath, targetPath, sep).folder + [sep] + LastSegment(srcPath, sep)
  {
    LastOfNewPath(srcPath, targetPath, sep);
    JoinLast(NewPathSplit(srcPath, targetPath, sep), sep);
  }
}
