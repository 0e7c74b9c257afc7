/**
 * What program::instance::create_file writes into a destination file
 * (main.cpp:664-734), stated as functions: the notice block, the line kept
 * from the source file, and the rest of the source copied verbatim.
 */
module Rewrite {
  import opened Common

  /**
   * A source file as wdul::freadline and wdul::fread see it.  `lines` are the
   * lines freadline returns one call after another, without their CRLF;
   * `tail` is what is left after the last of them.  What the line buffer holds
   * and what fread still returns once freadline has reported the end are not
   * visible in main.cpp: they are `endLine` and `endRest`.
   */
  datatype SourceFile = SourceFile(lines: seq<Bytes>, tail: Bytes, endLine: Bytes, endRest: Bytes)

  /** The bytes fread returns after k lines have been read. */
  function Unread(f: SourceFile, k: nat): Bytes
    requires k <= |f.lines|
  {
    Flatten(f.lines[k..]) + f.tail
  }

  /** The whole file: its lines, each with its CRLF, then the tail. */
  function Content(f: SourceFile): Bytes
  {
    Unread(f, 0)
  }

  /** A reader that splits at every CRLF: no line holds one, and neither does the tail. */
  predicate LineReader(f: SourceFile)
  {
    (forall k :: 0 <= k < |f.lines| ==> !HasCrlf(f.lines[k])) && !HasCrlf(f.tail)
  }

  /** The first line at or after `from` that does not start with the prefix, or |lines|. */
  function FirstNonComment(lines: seq<Bytes>, prefix: Bytes, from: nat): (j: nat)
    requires from <= |lines|
    ensures from <= j <= |lines|
    ensures forall k :: from <= k < j ==> StartsWith(lines[k], prefix)
    ensures j < |lines| ==> !StartsWith(lines[j], prefix)
    decreases |lines| - from
  {
    if from == |lines| || !StartsWith(lines[from], prefix) then from
    else FirstNonComment(lines, prefix, from + 1)
  }

  /** The first line is a comment that /replace drops. */
  predicate Replaces(f: SourceFile, prefix: Bytes, replace: bool)
    requires |f.lines| > 0
  {
    replace && StartsWith(f.lines[0], prefix)
  }

  /**
   * The line create_file writes after the notice, and what it copies after it.
   * Without /replace, or when the first line is not a comment, that is the
   * first line and everything after it; with /replace the leading comment
   * lines are skipped.
   */
  function Retain(f: SourceFile, prefix: Bytes, replace: bool): (r: (Bytes, Bytes))
    requires |f.lines| > 0
  {
    if Replaces(f, prefix, replace) then
      var j := FirstNonComment(f.lines, prefix, 1);
      if j < |f.lines| then (f.lines[j], Unread(f, j + 1)) else (f.endLine, f.endRest)
    else (f.lines[0], Unread(f, 1))
  }

  /** The notice as comment lines: the prefix, one piece of the notice and CRLF, for every piece. */
  function NoticeBlock(prefix: Bytes, notice: Bytes): Bytes
  {
    Flatten(Prefixed(prefix, Split(notice)))
  }

  /** The destination create_file leaves: empty for an empty source, else notice, kept line, CRLF, rest. */
  function Rewritten(f: SourceFile, prefix: Bytes, notice: Bytes, replace: bool): Bytes
  {
    if |f.lines| == 0 then []
    else
      var (line, rest) := Retain(f, prefix, replace);
      NoticeBlock(prefix, notice) + line + CRLF + rest
  }

  /** The destination of a non-empty source, given what Retain kept. */
  lemma {:induction false} RewrittenAfterRetain(f: SourceFile, prefix: Bytes, notice: Bytes, replace: bool, line: Bytes, rest: Bytes)
    requires |f.lines| > 0 && (line, rest) == Retain(f, prefix, replace)
    ensures Rewritten(f, prefix, notice, replace) == NoticeBlock(prefix, notice) + line + CRLF + rest
  {
  }

  // ---------------------------------------------------------------------------
  // The notice block

  /** A notice with k CRLF pairs becomes k + 1 comment lines. */
  lemma {:induction false} NoticeLineCount(prefix: Bytes, notice: Bytes)
    ensures |Prefixed(prefix, Split(notice))| == CountCrlf(notice) + 1
  {
    SplitCount(notice);
  }

  /** An empty notice still writes one line: the prefix and CRLF. */
  lemma {:induction false} EmptyNotice(prefix: Bytes)
    ensures NoticeBlock(prefix, []) == prefix + CRLF
  {
    var pieces: seq<Bytes> := [[]];
    assert Split([]) == pieces;
    assert prefix + [] == prefix;
    assert Prefixed(prefix, pieces) == [prefix];
    assert Flatten([prefix]) == prefix + CRLF + Flatten([]);
  }

  /** Appending CRLF does not move the first CRLF of a notice: the new pair is found last. */
  lemma {:induction false} FindCrlfBeforeCrlf(body: Bytes)
    ensures FindCrlf(body + CRLF, 0) == FindCrlf(body, 0)
  {
    var s := body + CRLF;
    var e := FindCrlf(body, 0);
    forall j | 0 <= j < e
      ensures !CrlfAt(s, j)
    {
      if j + 1 < |body| {
        assert !CrlfAt(body, j);
      } else {
        assert s[j + 1] == CR;
      }
    }
    assert CrlfAt(s, e);
    FindCrlfIs(s, e);
  }

  /** A notice ending in CRLF splits into the pieces of the rest and one more, empty, piece. */
  lemma {:induction false} TrailingCrlf(body: Bytes)
    ensures Split(body + CRLF) == Split(body) + [[]]
    decreases |body|
  {
    var e := FindCrlf(body, 0);
    FindCrlfBeforeCrlf(body);
    if e == |body| {
      TrailingCrlfLast(body);
    } else {
      var rest := body[e + 2..];
      TrailingCrlf(rest);
      TrailingCrlfStep(body, Split(rest + CRLF), Split(rest));
    }
  }

  /** The base case: a body without CRLF splits into itself and an empty piece. */
  lemma {:induction false} TrailingCrlfLast(body: Bytes)
    requires FindCrlf(body, 0) == |body| && FindCrlf(body + CRLF, 0) == |body|
    ensures Split(body + CRLF) == Split(body) + [[]]
  {
    var s := body + CRLF;
    SplitStep(s);
    assert s[..|body|] == body;
    assert s[|body| + 2..] == [];
    assert Split([]) == [[]];
  }

  /** The step: the first piece of body + CRLF is the first piece of body. */
  lemma {:induction false} TrailingCrlfStep(body: Bytes, later: seq<Bytes>, before: seq<Bytes>)
    requires FindCrlf(body, 0) < |body| && FindCrlf(body + CRLF, 0) == FindCrlf(body, 0)
    requires var e := FindCrlf(body, 0);
             later == Split(body[e + 2..] + CRLF) && before == Split(body[e + 2..]) && later == before + [[]]
    ensures Split(body + CRLF) == Split(body) + [[]]
  {
    var e := FindCrlf(body, 0);
    SplitStep(body + CRLF);
    SplitStep(body);
    TakeAppend(body, CRLF, e);
    DropAppend(body, CRLF, e + 2);
    AppendAssoc([body[..e]], before, [[]]);
  }

  /** So its last comment line holds only the prefix. */
  lemma {:induction false} TrailingCrlfComment(prefix: Bytes, body: Bytes)
    ensures var c := Prefixed(prefix, Split(body + CRLF));
            |c| == |Split(body)| + 1 && c[|c| - 1] == prefix
  {
    TrailingCrlf(body);
    var c := Prefixed(prefix, Split(body + CRLF));
    assert c[|c| - 1] == prefix + [];
  }

  /** Without a CR in the prefix, the comment lines hold no CRLF of their own. */
  lemma {:induction false} CommentLineClean(prefix: Bytes, piece: Bytes)
    requires CR !in prefix && !HasCrlf(piece)
    ensures !HasCrlf(prefix + piece)
  {
    var s := prefix + piece;
    forall i | 0 <= i < |s|
      ensures !CrlfAt(s, i)
    {
      if i < |prefix| {
        assert s[i] == prefix[i] && prefix[i] in prefix;
      } else {
        assert !CrlfAt(piece, i - |prefix|);
        assert i + 1 < |s| ==> s[i] == piece[i - |prefix|] && s[i + 1] == piece[i + 1 - |prefix|];
      }
    }
  }

  /** The comment line of a piece in front of the comment lines of more pieces. */
  lemma {:induction false} CommentedCons(prefix: Bytes, a: Bytes, more: seq<Bytes>)
    ensures Prefixed(prefix, [a] + more) == [prefix + a] + Prefixed(prefix, more)
  {
    assert ([a] + more)[1..] == more;
  }

  /**
   * One pass of create_file's notice loop: the comment line for the piece that
   * starts at `offset` ends at the next CRLF (or the end of the notice), and
   * the lines after it are those of the notice past that CRLF.
   */
  lemma {:induction false} NoticeStep(prefix: Bytes, notice: Bytes, offset: nat)
    requires offset <= |notice|
    ensures var e := FindCrlf(notice, offset);
            var line := prefix + notice[offset..e] + CRLF;
            && (e == |notice| ==> NoticeBlock(prefix, notice[offset..]) == line)
            && (e < |notice| ==> e + 2 <= |notice| &&
                                 NoticeBlock(prefix, notice[offset..]) == line + NoticeBlock(prefix, notice[e + 2..]))
  {
    var e := FindCrlf(notice, offset);
    FindCrlfShift(notice, offset);
    if e == |notice| {
      NoticeStepLast(prefix, notice, offset);
    } else {
      NoticeStepMore(prefix, notice, offset, e);
    }
  }

  /** The last piece of the notice: no CRLF after `offset`. */
  lemma {:induction false} NoticeStepLast(prefix: Bytes, notice: Bytes, offset: nat)
    requires offset <= |notice| && FindCrlf(notice[offset..], 0) == |notice| - offset
    ensures NoticeBlock(prefix, notice[offset..]) == prefix + notice[offset..] + CRLF
  {
    var s := notice[offset..];
    SplitNone(s);
    assert [s] == [s] + [];
    CommentedCons(prefix, s, []);
    FlattenCons(prefix + s, []);
    assert prefix + s + CRLF + [] == prefix + s + CRLF;
  }

  /** A piece of the notice ending at the CRLF at e. */
  lemma {:induction false} NoticeStepMore(prefix: Bytes, notice: Bytes, offset: nat, e: nat)
    requires offset <= e < |notice| && e == offset + FindCrlf(notice[offset..], 0)
    ensures e + 2 <= |notice|
    ensures NoticeBlock(prefix, notice[offset..]) ==
            prefix + notice[offset..e] + CRLF + NoticeBlock(prefix, notice[e + 2..])
  {
    var s := notice[offset..];
    var k := e - offset;
    SplitStep(s);
    SliceTake(notice, offset, k);
    SliceDrop(notice, offset, k + 2);
    var piece, after := notice[offset..e], notice[e + 2..];
    var more := Prefixed(prefix, Split(after));
    calc {
      NoticeBlock(prefix, s);
      Flatten(Prefixed(prefix, [piece] + Split(after)));
      { CommentedCons(prefix, piece, Split(after)); }
      Flatten([prefix + piece] + more);
      { FlattenCons(prefix + piece, more); }
      prefix + piece + CRLF + Flatten(more);
    }
  }

  /** The notice loop's bookkeeping: written so far, plus one more comment line, plus what is left. */
  lemma {:induction false} NoticeAdvance(prefix: Bytes, notice: Bytes, offset: nat, written: Bytes, block: Bytes)
    requires offset <= |notice|
    requires written + NoticeBlock(prefix, notice[offset..]) == block
    ensures var e := FindCrlf(notice, offset);
            var w := written + (prefix + notice[offset..e] + CRLF);
            && (e == |notice| ==> w == block)
            && (e < |notice| ==> e + 2 <= |notice| && w + NoticeBlock(prefix, notice[e + 2..]) == block)
  {
    NoticeStep(prefix, notice, offset);
    var e := FindCrlf(notice, offset);
    if e < |notice| {
      AppendAssoc(written, prefix + notice[offset..e] + CRLF, NoticeBlock(prefix, notice[e + 2..]));
    }
  }

  // ---------------------------------------------------------------------------
  // The destination file

  /** An empty source gives an empty destination. */
  lemma {:induction false} EmptySource(f: SourceFile, prefix: Bytes, notice: Bytes, replace: bool)
    requires |f.lines| == 0
    ensures Rewritten(f, prefix, notice, replace) == []
  {
  }

  /**
   * Unless a leading comment is replaced, the whole source follows the notice:
   * without /replace an old notice is kept below the new one.
   */
  lemma {:induction false} KeepsWholeSource(f: SourceFile, prefix: Bytes, notice: Bytes, replace: bool)
    requires |f.lines| > 0 && !Replaces(f, prefix, replace)
    ensures Rewritten(f, prefix, notice, replace) == NoticeBlock(prefix, notice) + Content(f)
  {
    assert f.lines[0..] == [f.lines[0]] + f.lines[1..];
    assert Flatten(f.lines[0..]) == f.lines[0] + CRLF + Flatten(f.lines[1..]);
  }

  /**
   * With /replace and a leading comment, exactly the comment lines before the
   * first other line are dropped; everything from that line on is kept.
   */
  lemma {:induction false} DropsLeadingComments(f: SourceFile, prefix: Bytes, notice: Bytes)
    requires |f.lines| > 0 && StartsWith(f.lines[0], prefix)
    requires FirstNonComment(f.lines, prefix, 1) < |f.lines|
    ensures var j := FirstNonComment(f.lines, prefix, 1);
            && (forall k :: 0 <= k < j ==> StartsWith(f.lines[k], prefix))
            && !StartsWith(f.lines[j], prefix)
            && Rewritten(f, prefix, notice, true) == NoticeBlock(prefix, notice) + Unread(f, j)
  {
    var j := FirstNonComment(f.lines, prefix, 1);
    assert f.lines[j..] == [f.lines[j]] + f.lines[j + 1..];
    assert Flatten(f.lines[j..]) == f.lines[j] + CRLF + Flatten(f.lines[j + 1..]);
  }

  /** With /replace and a source made of comment lines only, what is kept is not visible here. */
  lemma {:induction false} AllComments(f: SourceFile, prefix: Bytes, notice: Bytes)
    requires |f.lines| > 0 && StartsWith(f.lines[0], prefix)
    requires forall k :: 0 <= k < |f.lines| ==> StartsWith(f.lines[k], prefix)
    ensures Rewritten(f, prefix, notice, true) == NoticeBlock(prefix, notice) + f.endLine + CRLF + f.endRest
  {
  }

  /** The line a rewrite keeps, when it comes from the source's lines. */
  function RetainedIndex(f: SourceFile, prefix: Bytes, replace: bool): (j: nat)
    requires |f.lines| > 0
    ensures j <= |f.lines|
  {
    if Replaces(f, prefix, replace) then FirstNonComment(f.lines, prefix, 1) else 0
  }

  /** Lines, one more line, more lines and a last fragment, joined. */
  lemma {:induction false} JoinAround(c: seq<Bytes>, line: Bytes, after: seq<Bytes>, tail: Bytes)
    ensures Join(c + [line] + after + [tail]) == Flatten(c) + line + CRLF + (Flatten(after) + tail)
  {
    JoinFlatten(c + [line] + after, tail);
    FlattenAppend(c + [line], after);
    FlattenAppend(c, [line]);
    assert Flatten([line]) == line + CRLF + Flatten([]);
    var a, b := Flatten(c), Flatten(after);
    assert a + (line + CRLF) + b + tail == a + line + CRLF + (b + tail);
  }

  /** When the kept line is one of the lines read, Retain keeps it and the lines after it. */
  lemma {:induction false} RetainAt(f: SourceFile, prefix: Bytes, replace: bool)
    requires |f.lines| > 0 && RetainedIndex(f, prefix, replace) < |f.lines|
    ensures var j := RetainedIndex(f, prefix, replace);
            Retain(f, prefix, replace) == (f.lines[j], Unread(f, j + 1))
  {
  }

  /** The destination, line by line: the comment lines, the kept line, the lines after it. */
  lemma {:induction false} RewrittenLines(f: SourceFile, prefix: Bytes, notice: Bytes, replace: bool)
    requires |f.lines| > 0 && RetainedIndex(f, prefix, replace) < |f.lines|
    ensures var j := RetainedIndex(f, prefix, replace);
            Rewritten(f, prefix, notice, replace) ==
            Join(Prefixed(prefix, Split(notice)) + [f.lines[j]] + f.lines[j + 1..] + [f.tail])
  {
    var j := RetainedIndex(f, prefix, replace);
    RetainAt(f, prefix, replace);
    JoinAround(Prefixed(prefix, Split(notice)), f.lines[j], f.lines[j + 1..], f.tail);
  }

  /** The pieces of a destination: the comment lines, the kept line, the lines after it, the tail. */
  function DestinationPieces(f: SourceFile, prefix: Bytes, notice: Bytes, replace: bool): seq<Bytes>
    requires |f.lines| > 0 && RetainedIndex(f, prefix, replace) < |f.lines|
  {
    var j := RetainedIndex(f, prefix, replace);
    Prefixed(prefix, Split(notice)) + [f.lines[j]] + f.lines[j + 1..] + [f.tail]
  }

  /** A destination splits at its CRLF pairs into exactly those pieces. */
  lemma {:induction false} SplitDestination(f: SourceFile, prefix: Bytes, notice: Bytes, replace: bool)
    requires LineReader(f) && CR !in prefix
    requires |f.lines| > 0 && RetainedIndex(f, prefix, replace) < |f.lines|
    ensures Split(Rewritten(f, prefix, notice, replace)) == DestinationPieces(f, prefix, notice, replace)
  {
    var j := RetainedIndex(f, prefix, replace);
    var c := Prefixed(prefix, Split(notice));
    var ps := DestinationPieces(f, prefix, notice, replace);
    RewrittenLines(f, prefix, notice, replace);
    SplitPiecesClean(notice);
    forall k | 0 <= k < |ps|
      ensures !HasCrlf(ps[k])
    {
      if k < |c| {
        CommentLineClean(prefix, Split(notice)[k]);
      } else if k > |c| && k < |ps| - 1 {
        assert ps[k] == f.lines[j + 1 + (k - |c| - 1)];
      }
    }
    SplitUnique(ps);
  }

  /** A reader that splits at every CRLF reads back the pieces of its content. */
  lemma {:induction false} ReadBack(g: SourceFile)
    requires LineReader(g)
    ensures Split(Content(g)) == g.lines + [g.tail]
  {
    JoinFlatten(g.lines, g.tail);
    assert g.lines[0..] == g.lines;
    var ps := g.lines + [g.tail];
    assert forall k :: 0 <= k < |ps| ==> !HasCrlf(ps[k]) by {
      assert forall k :: 0 <= k < |g.lines| ==> ps[k] == g.lines[k];
    }
    SplitUnique(ps);
  }

  /** Re-reading a destination: its notice lines are comments, skipped up to the kept line. */
  lemma {:induction false} SkipsNotice(g: SourceFile, prefix: Bytes, notice: Bytes, line: Bytes, after: seq<Bytes>)
    requires g.lines == Prefixed(prefix, Split(notice)) + [line] + after
    requires !StartsWith(line, prefix)
    ensures |g.lines| > 0 && StartsWith(g.lines[0], prefix)
    ensures FirstNonComment(g.lines, prefix, 1) == |Split(notice)|
  {
    var c := Prefixed(prefix, Split(notice));
    var n := |c|;
    forall k | 0 <= k < n
      ensures StartsWith(g.lines[k], prefix)
    {
      assert g.lines[k] == prefix + Split(notice)[k];
      assert (prefix + Split(notice)[k])[..|prefix|] == prefix;
    }
    assert g.lines[n] == line;
    FirstNonCommentIs(g.lines, prefix, 1, n);
  }

  /**
   * A rewrite with /replace is idempotent: when the kept line is not a comment
   * and the prefix holds no CR, reading the destination again, line by line,
   * and rewriting it with the same prefix and notice gives the same bytes.
   */
  lemma {:induction false} RewriteIdempotent(f: SourceFile, g: SourceFile, prefix: Bytes, notice: Bytes, replace: bool)
    requires LineReader(f) && LineReader(g)
    requires CR !in prefix
    requires |f.lines| > 0 && RetainedIndex(f, prefix, replace) < |f.lines|
    requires !StartsWith(f.lines[RetainedIndex(f, prefix, replace)], prefix)
    requires Content(g) == Rewritten(f, prefix, notice, replace)
    ensures Rewritten(g, prefix, notice, true) == Rewritten(f, prefix, notice, replace)
  {
    var j := RetainedIndex(f, prefix, replace);
    var c := Prefixed(prefix, Split(notice));
    var after := f.lines[j + 1..];
    SplitDestination(f, prefix, notice, replace);
    ReadBack(g);
    var kept := c + [f.lines[j]] + after;
    assert g.lines + [g.tail] == kept + [f.tail];
    assert |g.lines| == |kept|;
    assert g.lines == (g.lines + [g.tail])[..|g.lines|];
    assert kept == (kept + [f.tail])[..|kept|];
    assert g.tail == (kept + [f.tail])[|kept|];
    SkipsNotice(g, prefix, notice, f.lines[j], after);
    var n := |c|;
    assert g.lines[n] == f.lines[j];
    assert g.lines[n + 1..] == after;
    assert Retain(g, prefix, true) == (f.lines[j], Unread(f, j + 1));
    assert Retain(f, prefix, replace) == (f.lines[j], Unread(f, j + 1));
  }

  /** A line that is not a comment, after comment lines only, is the one FirstNonComment finds. */
  lemma {:induction false} FirstNonCommentIs(lines: seq<Bytes>, prefix: Bytes, from: nat, j: nat)
    requires from <= j < |lines|
    requires forall k :: from <= k < j ==> StartsWith(lines[k], prefix)
    requires !StartsWith(lines[j], prefix)
    ensures FirstNonComment(lines, prefix, from) == j
    decreases j - from
  {
    if from < j {
      FirstNonCommentIs(lines, prefix, from + 1, j);
    }
  }

  /** A byte string without CR holds no CRLF pair. */
  lemma {:induction false} NoCrNoCrlf(s: Bytes)
    requires CR !in s
    ensures !HasCrlf(s)
  {
    forall i | 0 <= i < |s|
      ensures !CrlfAt(s, i)
    {
      assert s[i] in s;
    }
  }

  /**
   * A worked example: the source "// old", "int x;" with a CRLF after each
   * line, the default prefix "// ", /replace and the notice "Copyright 2024"
   * gives "// Copyright 2024", CRLF, "int x;", CRLF.
   */
  lemma {:induction false} ReplaceExample()
    ensures var slashes: Bytes := [47, 47, 32];
            var oldText: Bytes := [111, 108, 100];
            var code: Bytes := [105, 110, 116, 32, 120, 59];  // "int x;"
            var notice: Bytes := [67, 111, 112, 121, 114, 105, 103, 104, 116, 32, 50, 48, 50, 52];
            Rewritten(SourceFile([slashes + oldText, code], [], [], []), slashes, notice, true)
            == slashes + notice + CRLF + code + CRLF
  {
    var prefix: Bytes := [47, 47, 32];
    var oldText: Bytes := [111, 108, 100];
    var code: Bytes := [105, 110, 116, 32, 120, 59];
    var notice: Bytes := [67, 111, 112, 121, 114, 105, 103, 104, 116, 32, 50, 48, 50, 52];
    var f := SourceFile([prefix + oldText, code], [], [], []);
    assert StartsWith(f.lines[0], prefix) by {
      assert (prefix + oldText)[..|prefix|] == prefix;
    }
    assert !StartsWith(f.lines[1], prefix) by {
      assert code[0] != prefix[0];
    }
    FirstNonCommentIs(f.lines, prefix, 1, 1);
    assert CR !in notice;
    NoCrNoCrlf(notice);
    FindCrlfNone(notice);
    SplitNone(notice);
    assert Prefixed(prefix, [notice]) == [prefix + notice];
    FlattenCons(prefix + notice, []);
    assert f.lines[2..] == [];
    assert Unread(f, 2) == [];
  }
}
