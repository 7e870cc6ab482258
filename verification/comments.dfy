/** The file description: the comments in front of a file's first
    statement, stripped of comment markers and blank lines, with the
    framework directives `"use client"` and `"use server"` left out. */
module Comments {
  import opened Strings
  import opened Seqs
  import opened Records

  /** A comment that is not a framework directive. */
  predicate Kept(comment: string) {
    !Contains(comment, "use client") && !Contains(comment, "use server")
  }

  /** The comment with every `/**`, then every `*/`, then every `*`, then
      every `//` deleted, in that order. */
  function Strip(comment: string): (r: string)
    ensures '*' !in r
  {
    RemoveAll(RemoveAll(RemoveAll(RemoveAll(comment, "/**"), "*/"), "*"), "//")
  }

  function TrimAll(xs: seq<string>): (r: seq<string>)
    ensures |r| == |xs|
    ensures forall k :: 0 <= k < |r| ==> r[k] == Trim(xs[k])
  {
    if xs == [] then [] else [Trim(xs[0])] + TrimAll(xs[1..])
  }

  predicate NonEmpty(line: string) {
    line != []
  }

  /** A line as the description holds it: non-empty, on one line, without
      white space at either end and without `*`. */
  predicate CleanLine(line: string) {
    line != [] && '\n' !in line && '*' !in line && Trim(line) == line
  }

  /** The trimmed non-blank lines of a stripped comment. */
  function CleanLines(comment: string): (r: seq<string>)
    ensures forall k :: 0 <= k < |r| ==> CleanLine(r[k])
  {
    var pieces := Split(Strip(comment), '\n');
    var r := Filter(NonEmpty, TrimAll(pieces));
    FilterMembers(NonEmpty, TrimAll(pieces));
    forall k | 0 <= k < |r| ensures CleanLine(r[k]) {
      assert r[k] in TrimAll(pieces);
      var i :| 0 <= i < |pieces| && r[k] == Trim(pieces[i]);
      TrimTwice(pieces[i]);
      if '\n' in r[k] {
        TrimChars(pieces[i], '\n');
      }
      if '*' in r[k] {
        TrimChars(pieces[i], '*');
      }
    }
    r
  }

  /** The cleaned comment: its clean lines joined by line breaks. */
  function CleanComment(comment: string): (r: string)
    ensures '*' !in r
    ensures r == [] <==> CleanLines(comment) == []
    ensures Trim(r) == r
  {
    JoinedLinesClean(CleanLines(comment));
    Join(CleanLines(comment), '\n')
  }

  /** Clean lines joined by line breaks: empty only when there are none,
      without `*`, and trimmed. */
  lemma JoinedLinesClean(lines: seq<string>)
    requires forall k :: 0 <= k < |lines| ==> CleanLine(lines[k])
    ensures var d := Join(lines, '\n');
            && (d == [] <==> lines == []) && '*' !in d && Trim(d) == d
  {
    var d := Join(lines, '\n');
    if '*' in d {
      JoinChars(lines, '\n', '*');
    }
    if lines != [] {
      JoinEnds(lines, '\n');
      TrimIdentity(d);
    }
  }

  /** What one comment contributes to the description: its trimmed
      cleaned text, when it is kept and that text is not empty. */
  function Contribution(c: string): seq<string> {
    var clean := Trim(CleanComment(c));
    if Kept(c) && clean != [] then [clean] else []
  }

  /** The contributions of the comments, in order. */
  function Pieces(comments: seq<string>): seq<string> {
    FlatMap(Contribution, comments)
  }

  /** `getFileDescription`: `None` when the file has no statements or no
      comment contributes anything, else the contributions joined by line
      breaks. */
  function FileDescription(leadingComments: Option<seq<string>>): (r: Option<string>)
    ensures r.Some? ==> r.value != [] && '*' !in r.value && Trim(r.value) == r.value
  {
    match leadingComments
    case None => None
    case Some(comments) =>
      var pieces := Pieces(comments);
      if pieces == [] then None
      else
        var d := Join(pieces, '\n');
        DescriptionIsClean(comments);
        Some(d)
  }

  /** The clean lines of a kept comment; none of a directive. */
  function KeptLines(c: string): (r: seq<string>)
    ensures forall k :: 0 <= k < |r| ==> CleanLine(r[k])
  {
    if Kept(c) then CleanLines(c) else []
  }

  /** The clean lines of every kept comment, in order: the reference for
      what the description says. */
  function AllLines(comments: seq<string>): seq<string> {
    FlatMap(KeptLines, comments)
  }

  /** A comment contributes its clean lines joined, or nothing when it has
      none. */
  lemma ContributionLines(c: string)
    ensures Contribution(c) == if KeptLines(c) == [] then [] else [Join(KeptLines(c), '\n')]
  {
  }

  lemma AllLinesClean(comments: seq<string>)
    ensures forall k :: 0 <= k < |AllLines(comments)| ==> CleanLine(AllLines(comments)[k])
  {
    FlatMapAll(KeptLines, CleanLine, comments);
  }

  /** Joining the contributions is joining all clean lines. */
  lemma PiecesJoin(comments: seq<string>)
    ensures Pieces(comments) == [] <==> AllLines(comments) == []
    ensures Join(Pieces(comments), '\n') == Join(AllLines(comments), '\n')
  {
    forall c ensures Contribution(c) == if KeptLines(c) == [] then [] else [Join(KeptLines(c), '\n')] {
      ContributionLines(c);
    }
    JoinFlatMap(Contribution, KeptLines, comments, '\n');
  }

  /** Flattening pieces that are each the join of some lines, or nothing
      when there are no lines, and joining the result, joins all lines. */
  lemma {:induction false} JoinFlatMap<T>(f: T -> seq<string>, g: T -> seq<string>, xs: seq<T>, sep: char)
    requires forall x :: f(x) == if g(x) == [] then [] else [Join(g(x), sep)]
    ensures FlatMap(f, xs) == [] <==> FlatMap(g, xs) == []
    ensures Join(FlatMap(f, xs), sep) == Join(FlatMap(g, xs), sep)
    decreases |xs|
  {
    if xs != [] {
      var x := xs[0];
      var lines := g(x);
      var rest := FlatMap(g, xs[1..]);
      JoinFlatMap(f, g, xs[1..], sep);
      assert FlatMap(g, xs) == lines + rest;
      assert FlatMap(f, xs) == f(x) + FlatMap(f, xs[1..]);
      if lines != [] {
        var pieces := FlatMap(f, xs[1..]);
        assert FlatMap(f, xs) == [Join(lines, sep)] + pieces;
        if rest == [] {
          assert lines + rest == lines;
          assert [Join(lines, sep)] + pieces == [Join(lines, sep)];
        } else {
          JoinAppend(lines, rest, sep);
          assert ([Join(lines, sep)] + pieces)[1..] == pieces;
          assert Join([Join(lines, sep)] + pieces, sep) == Join(lines, sep) + [sep] + Join(pieces, sep);
        }
      } else {
        assert f(x) == [];
        assert FlatMap(f, xs) == FlatMap(f, xs[1..]);
        assert FlatMap(g, xs) == rest;
      }
    }
  }

  lemma DescriptionIsClean(comments: seq<string>)
    requires Pieces(comments) != []
    ensures var d := Join(Pieces(comments), '\n');
            d != [] && '*' !in d && Trim(d) == d
  {
    PiecesJoin(comments);
    AllLinesClean(comments);
    JoinedLinesClean(AllLines(comments));
  }

  /** The description exists exactly when some kept comment has a
      non-blank line, and its lines are then exactly the clean lines of the
      kept comments, in order. */
  lemma DescriptionLines(comments: seq<string>)
    ensures FileDescription(Some(comments)).Some? <==> AllLines(comments) != []
    ensures FileDescription(Some(comments)).Some? ==>
              Split(FileDescription(Some(comments)).value, '\n') == AllLines(comments)
  {
    assert FileDescription(Some(comments))
           == if Pieces(comments) == [] then None else Some(Join(Pieces(comments), '\n'));
    PiecesJoin(comments);
    AllLinesClean(comments);
    if AllLines(comments) != [] {
      SplitJoin(AllLines(comments), '\n');
    }
  }

  /** A directive comment contributes nothing, wherever it stands. */
  lemma DirectiveSkipped(before: seq<string>, directive: string, after: seq<string>)
    requires !Kept(directive)
    ensures FileDescription(Some(before + [directive] + after)) == FileDescription(Some(before + after))
  {
    DirectivePieces(before, directive, after);
  }

  lemma DirectivePieces(before: seq<string>, directive: string, after: seq<string>)
    requires !Kept(directive)
    ensures Pieces(before + [directive] + after) == Pieces(before + after)
  {
    assert Contribution(directive) == [];
    FlatMapSkip(Contribution, before, directive, after);
  }
}
