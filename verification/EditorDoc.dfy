// A list of lines with a cursor, and the proof that every edit and cursor move
// on it is the matching one on the flat string it stands for.
module EditorDoc {
  import opened Values
  import opened EditorText

  datatype Doc = Doc(lines: seq<string>, line: nat, column: nat)

  ghost predicate ValidDoc(d: Doc) {
    NoNewlines(d.lines) && d.line < |d.lines| && d.column <= |d.lines[d.line]|
  }

  // Where line i begins in the joined text.
  function Begin(ls: seq<string>, i: nat): nat
    requires i <= |ls|
  {
    if i == 0 then 0 else Begin(ls, i - 1) + |ls[i - 1]| + 1
  }

  function FlatOf(d: Doc): (f: Flat)
    requires d.line < |d.lines|
  {
    Flat(Join(d.lines), Begin(d.lines, d.line) + d.column)
  }

  lemma {:induction false} BeginSame(ls: seq<string>, ms: seq<string>, i: nat)
    requires i <= |ls| && i <= |ms| && forall j :: 0 <= j < i ==> |ls[j]| == |ms[j]|
    ensures Begin(ls, i) == Begin(ms, i)
  {
    if i > 0 {
      BeginSame(ls, ms, i - 1);
    }
  }

  lemma {:induction false} LeadLength(ls: seq<string>, i: nat)
    requires i <= |ls|
    ensures |Lead(ls[..i])| == Begin(ls, i)
  {
    if i > 0 {
      LeadLength(ls, i - 1);
      assert ls[..i] == ls[..i - 1] + [ls[i - 1]];
      JoinLast(ls[..i - 1], ls[i - 1]);
    }
  }

  // ------------------------------------------------------------------------
  // Edits and moves on lines
  // ------------------------------------------------------------------------

  function Put(d: Doc, ch: char): Doc
    requires d.line < |d.lines| && d.column <= |d.lines[d.line]|
  {
    var l := d.lines[d.line];
    Doc(d.lines[d.line := l[..d.column] + [ch] + l[d.column..]], d.line, d.column + 1)
  }

  function Break(d: Doc): Doc
    requires d.line < |d.lines| && d.column <= |d.lines[d.line]|
  {
    var l := d.lines[d.line];
    Doc(d.lines[..d.line] + [l[..d.column], l[d.column..]] + d.lines[d.line + 1..], d.line + 1, 0)
  }

  function Erase(d: Doc): Doc
    requires d.line < |d.lines| && d.column <= |d.lines[d.line]|
  {
    var l := d.lines[d.line];
    if d.column > 0 then
      Doc(d.lines[d.line := l[..d.column - 1] + l[d.column..]], d.line, d.column - 1)
    else if d.line > 0 then
      var p := d.lines[d.line - 1];
      Doc(d.lines[..d.line - 1] + [p + l] + d.lines[d.line + 1..], d.line - 1, |p|)
    else d
  }

  function Climb(d: Doc): Doc
    requires d.line < |d.lines|
  {
    if d.line > 0 then d.(line := d.line - 1, column := Min(d.column, |d.lines[d.line - 1]|)) else d
  }

  function Descend(d: Doc): Doc
    requires d.line < |d.lines|
  {
    if d.line < |d.lines| - 1 then d.(line := d.line + 1, column := Min(d.column, |d.lines[d.line + 1]|)) else d
  }

  function StepLeft(d: Doc): Doc {
    if d.column > 0 then d.(column := d.column - 1) else d
  }

  function StepRight(d: Doc): Doc
    requires d.line < |d.lines|
  {
    if d.column < |d.lines[d.line]| then d.(column := d.column + 1) else d
  }

  // ------------------------------------------------------------------------
  // The line under the cursor, and what surrounds it
  // ------------------------------------------------------------------------

  lemma LeadEnds(pre: seq<string>)
    ensures Lead(pre) == "" || Lead(pre)[|Lead(pre)| - 1] == '\n'
    ensures Lead(pre) == "" <==> pre == []
  {}

  lemma {:induction false} Around(ls: seq<string>, i: nat)
    requires i < |ls|
    ensures Same(Join(ls), Lead(ls[..i]) + ls[i] + Trail(ls[i + 1..]))
    ensures |Lead(ls[..i])| == Begin(ls, i)
    ensures NoNewlines(ls) ==> Bounded(Lead(ls[..i]), ls[i], Trail(ls[i + 1..]))
  {
    JoinAround(ls[..i], [ls[i]], ls[i + 1..]);
    assert ls[..i] + [ls[i]] + ls[i + 1..] == ls;
    LeadEnds(ls[..i]);
    LeadLength(ls, i);
  }

  // The cursor's flat position lies in the text.
  lemma FlatBounds(d: Doc)
    requires ValidDoc(d)
    ensures FlatOf(d).at <= |FlatOf(d).text|
  {
    Around(d.lines, d.line);
  }

  // ------------------------------------------------------------------------
  // Edits
  // ------------------------------------------------------------------------

  lemma InsertWithin(a: string, l: string, b: string, c: nat, ch: char)
    requires c <= |l|
    ensures Same(Insert(Flat(a + l + b, |a| + c), ch), Flat(a + (l[..c] + [ch] + l[c..]) + b, |a| + (c + 1)))
  {
    var t := a + l + b;
    assert t[..|a| + c] == a + l[..c] && t[|a| + c..] == l[c..] + b;
    assert a + (l[..c] + [ch] + l[c..]) + b == (a + l[..c]) + [ch] + (l[c..] + b);
  }

  lemma DeleteWithin(a: string, l: string, b: string, c: nat)
    requires 0 < c <= |l|
    ensures Same(Delete(Flat(a + l + b, |a| + c)), Flat(a + (l[..c - 1] + l[c..]) + b, |a| + (c - 1)))
  {
    var t := a + l + b;
    assert t[..|a| + c - 1] == a + l[..c - 1] && t[|a| + c..] == l[c..] + b;
    assert a + (l[..c - 1] + l[c..]) + b == (a + l[..c - 1]) + (l[c..] + b);
  }

  lemma PutValid(d: Doc, ch: char)
    requires ValidDoc(d) && ch != '\n'
    ensures ValidDoc(Put(d, ch))
  {}

  lemma BreakValid(d: Doc)
    requires ValidDoc(d)
    ensures ValidDoc(Break(d))
  {}

  lemma EraseValid(d: Doc)
    requires ValidDoc(d)
    ensures ValidDoc(Erase(d))
  {}

  // Replacing the line under the cursor replaces it in the text.
  lemma Substituted(ls: seq<string>, i: nat, l: string)
    requires i < |ls|
    ensures Same(Join(ls[i := l]), Lead(ls[..i]) + l + Trail(ls[i + 1..]))
    ensures Begin(ls[i := l], i) == Begin(ls, i)
  {
    BeginSame(ls[i := l], ls, i);
    Around(ls[i := l], i);
    assert ls[i := l][..i] == ls[..i] && ls[i := l][i + 1..] == ls[i + 1..];
  }

  lemma PutIsInsert(d: Doc, ch: char)
    requires ValidDoc(d) && ch != '\n'
    ensures FlatOf(d).at <= |FlatOf(d).text|
    ensures Same(FlatOf(Put(d, ch)), Insert(FlatOf(d), ch))
  {
    FlatBounds(d);
    var i, c, l := d.line, d.column, d.lines[d.line];
    Around(d.lines, i);
    Substituted(d.lines, i, l[..c] + [ch] + l[c..]);
    assert Same(FlatOf(d), Flat(Lead(d.lines[..i]) + l + Trail(d.lines[i + 1..]), |Lead(d.lines[..i])| + c));
    InsertWithin(Lead(d.lines[..i]), l, Trail(d.lines[i + 1..]), c, ch);
  }

  // Breaking a line in two: the text gains a newline.
  lemma JoinBroken(pre: seq<string>, l: string, post: seq<string>, c: nat)
    requires c <= |l|
    ensures Same(Join(pre + [l[..c], l[c..]] + post), Lead(pre) + (l[..c] + ['\n'] + l[c..]) + Trail(post))
  {
    JoinAround(pre, [l[..c], l[c..]], post);
    assert [l[..c], l[c..]][1..] == [l[c..]];
    assert Join([l[..c], l[c..]]) == l[..c] + ['\n'] + l[c..];
  }

  lemma BreakBegin(d: Doc)
    requires ValidDoc(d)
    ensures Begin(Break(d).lines, d.line + 1) == Begin(d.lines, d.line) + (d.column + 1)
  {
    BeginSame(Break(d).lines, d.lines, d.line);
  }

  lemma BreakIsInsert(d: Doc)
    requires ValidDoc(d)
    ensures FlatOf(d).at <= |FlatOf(d).text|
    ensures Same(FlatOf(Break(d)), Insert(FlatOf(d), '\n'))
  {
    FlatBounds(d);
    var i, c, l := d.line, d.column, d.lines[d.line];
    Around(d.lines, i);
    JoinBroken(d.lines[..i], l, d.lines[i + 1..], c);
    BreakBegin(d);
    InsertWithin(Lead(d.lines[..i]), l, Trail(d.lines[i + 1..]), c, '\n');
  }

  lemma EraseInLine(d: Doc)
    requires ValidDoc(d) && d.column > 0
    ensures FlatOf(d).at <= |FlatOf(d).text|
    ensures Same(FlatOf(Erase(d)), Delete(FlatOf(d)))
  {
    FlatBounds(d);
    var i, c, l := d.line, d.column, d.lines[d.line];
    Around(d.lines, i);
    Substituted(d.lines, i, l[..c - 1] + l[c..]);
    DeleteWithin(Lead(d.lines[..i]), l, Trail(d.lines[i + 1..]), c);
  }

  // Erasing a line break undoes the break.
  lemma EraseBreak(d: Doc)
    requires ValidDoc(d) && d.column == 0 && d.line > 0
    ensures FlatOf(d).at <= |FlatOf(d).text|
    ensures Same(FlatOf(Erase(d)), Delete(FlatOf(d)))
  {
    FlatBounds(d);
    var i := d.line;
    var p, l := d.lines[i - 1], d.lines[i];
    var e := Erase(d);
    EraseValid(d);
    assert (p + l)[..|p|] == p && (p + l)[|p|..] == l;
    assert Break(e) == d by {
      assert e.lines[..i - 1] == d.lines[..i - 1] && e.lines[i..] == d.lines[i + 1..];
      assert d.lines == d.lines[..i - 1] + [p, l] + d.lines[i + 1..];
    }
    BreakIsInsert(e);
    InsertThenDelete(FlatOf(e), '\n');
  }

  // Deleting undoes inserting.
  lemma InsertThenDelete(f: Flat, ch: char)
    requires f.at <= |f.text|
    ensures Insert(f, ch).at <= |Insert(f, ch).text|
    ensures Same(Delete(Insert(f, ch)), f)
  {
    var g := Insert(f, ch);
    assert g.text[..g.at - 1] == f.text[..f.at] && g.text[g.at..] == f.text[f.at..];
    assert f.text == f.text[..f.at] + f.text[f.at..];
  }

  lemma EraseIsDelete(d: Doc)
    requires ValidDoc(d)
    ensures FlatOf(d).at <= |FlatOf(d).text|
    ensures Same(FlatOf(Erase(d)), Delete(FlatOf(d)))
  {
    FlatBounds(d);
    if d.column > 0 {
      EraseInLine(d);
    } else if d.line > 0 {
      EraseBreak(d);
    } else {
      assert Begin(d.lines, 0) == 0;
    }
  }

  // ------------------------------------------------------------------------
  // Moves
  // ------------------------------------------------------------------------

  lemma StepsAreFlat(d: Doc)
    requires ValidDoc(d)
    ensures FlatOf(d).at <= |FlatOf(d).text|
    ensures Same(FlatOf(StepLeft(d)), Left(FlatOf(d))) && ValidDoc(StepLeft(d))
    ensures Same(FlatOf(StepRight(d)), Right(FlatOf(d))) && ValidDoc(StepRight(d))
  {
    FlatBounds(d);
    Around(d.lines, d.line);
    var a, l, b := Lead(d.lines[..d.line]), d.lines[d.line], Trail(d.lines[d.line + 1..]);
    NeighboursOf(a, l, b, d.column);
  }

  // The characters beside a position in a line.
  lemma NeighboursOf(a: string, l: string, b: string, c: nat)
    requires Bounded(a, l, b) && c <= |l|
    ensures c > 0 ==> (a + l + b)[|a| + c - 1] != '\n'
    ensures c == 0 && a != "" ==> (a + l + b)[|a| + c - 1] == '\n'
    ensures c < |l| ==> (a + l + b)[|a| + c] != '\n'
    ensures c == |l| && b != "" ==> (a + l + b)[|a| + c] == '\n'
  {
    var t := a + l + b;
    if c > 0 {
      assert t[|a| + c - 1] == l[c - 1];
    } else if a != "" {
      assert t[|a| + c - 1] == a[|a| - 1];
    }
    if c < |l| {
      assert t[|a| + c] == l[c];
    } else if b != "" {
      assert t[|a| + c] == b[0];
    }
  }

  // The start and end of the line under the cursor.
  lemma LineBounds(ls: seq<string>, i: nat, c: nat)
    requires NoNewlines(ls) && i < |ls| && c <= |ls[i]|
    ensures var n := Begin(ls, i);
            n + |ls[i]| <= |Join(ls)| && LineStart(Join(ls), n + c) == n && LineEnd(Join(ls), n + c) == n + |ls[i]|
  {
    Around(ls, i);
    StartInside(Lead(ls[..i]), ls[i], Trail(ls[i + 1..]), c);
    EndInside(Lead(ls[..i]), ls[i], Trail(ls[i + 1..]), c);
  }

  lemma LastLine(ls: seq<string>, i: nat)
    requires i < |ls|
    ensures Begin(ls, i) + |ls[i]| == |Join(ls)| <==> i == |ls| - 1
  {
    Around(ls, i);
  }

  // From a line at n of length k, column c, to the line of length m before it.
  lemma UpBy(t: string, n: nat, c: nat, m: nat)
    requires m + 1 <= n && n + c <= |t|
    requires LineStart(t, n + c) == n && LineStart(t, n - 1) == n - 1 - m
    ensures Same(Up(Flat(t, n + c)), Flat(t, n - 1 - m + Min(c, m)))
  {}

  // From a line at n of length k, column c, to the line of length m after it.
  lemma DownBy(t: string, n: nat, c: nat, k: nat, m: nat)
    requires c <= k && n + k < |t|
    requires LineStart(t, n + c) == n && LineEnd(t, n + c) == n + k && LineEnd(t, n + k + 1) == n + k + 1 + m
    ensures Same(Down(Flat(t, n + c)), Flat(t, n + k + 1 + Min(c, m)))
  {}

  lemma ClimbIsUp(d: Doc)
    requires ValidDoc(d)
    ensures FlatOf(d).at <= |FlatOf(d).text|
    ensures ValidDoc(Climb(d)) && Same(FlatOf(Climb(d)), Up(FlatOf(d)))
  {
    FlatBounds(d);
    LineBounds(d.lines, d.line, d.column);
    if d.line > 0 {
      var p := d.lines[d.line - 1];
      LineBounds(d.lines, d.line - 1, |p|);
      UpBy(Join(d.lines), Begin(d.lines, d.line), d.column, |p|);
    }
  }

  lemma DescendIsDown(d: Doc)
    requires ValidDoc(d)
    ensures FlatOf(d).at <= |FlatOf(d).text|
    ensures ValidDoc(Descend(d)) && Same(FlatOf(Descend(d)), Down(FlatOf(d)))
  {
    FlatBounds(d);
    LineBounds(d.lines, d.line, d.column);
    LastLine(d.lines, d.line);
    if d.line < |d.lines| - 1 {
      DescendInside(d);
    }
  }

  lemma DescendInside(d: Doc)
    requires ValidDoc(d) && d.line < |d.lines| - 1
    ensures FlatOf(d).at <= |FlatOf(d).text|
    ensures ValidDoc(Descend(d)) && Same(FlatOf(Descend(d)), Down(FlatOf(d)))
  {
    FlatBounds(d);
    LineBounds(d.lines, d.line, d.column);
    LineBounds(d.lines, d.line + 1, 0);
    DownBy(Join(d.lines), Begin(d.lines, d.line), d.column, |d.lines[d.line]|, |d.lines[d.line + 1]|);
  }
}
