// The text editor's buffer seen as a flat string with an insertion point
// (apps/editor/editor.c): the edits and cursor moves on the string, and the
// lemmas that carry them to a list of lines.
module EditorText {
  import opened Values

  // ------------------------------------------------------------------------
  // A flat string and a position in it
  // ------------------------------------------------------------------------

  datatype Flat = Flat(text: string, at: nat)

  // Where the line that holds position i begins and ends.
  function LineStart(text: string, i: nat): nat
    requires i <= |text|
  {
    if i == 0 || text[i - 1] == '\n' then i else LineStart(text, i - 1)
  }

  function LineEnd(text: string, i: nat): nat
    requires i <= |text|
    decreases |text| - i
  {
    if i == |text| || text[i] == '\n' then i else LineEnd(text, i + 1)
  }

  function Insert(f: Flat, ch: char): Flat
    requires f.at <= |f.text|
  {
    Flat(f.text[..f.at] + [ch] + f.text[f.at..], f.at + 1)
  }

  function Delete(f: Flat): Flat
    requires f.at <= |f.text|
  {
    if f.at == 0 then f else Flat(f.text[..f.at - 1] + f.text[f.at..], f.at - 1)
  }

  // To the same column of the line above, or to its end if it is shorter.
  function Up(f: Flat): Flat
    requires f.at <= |f.text|
  {
    StartBounds(f.text, f.at);
    var s := LineStart(f.text, f.at);
    if s == 0 then f
    else
      StartBounds(f.text, s - 1);
      f.(at := Min(LineStart(f.text, s - 1) + (f.at - s), s - 1))
  }

  function Down(f: Flat): Flat
    requires f.at <= |f.text|
  {
    StartBounds(f.text, f.at);
    EndBounds(f.text, f.at);
    var s, e := LineStart(f.text, f.at), LineEnd(f.text, f.at);
    if e == |f.text| then f else f.(at := Min(e + 1 + (f.at - s), LineEnd(f.text, e + 1)))
  }

  function Left(f: Flat): Flat
    requires f.at <= |f.text|
  {
    if f.at == 0 || f.text[f.at - 1] == '\n' then f else f.(at := f.at - 1)
  }

  function Right(f: Flat): Flat
    requires f.at <= |f.text|
  {
    if f.at == |f.text| || f.text[f.at] == '\n' then f else f.(at := f.at + 1)
  }

  lemma {:induction false} StartBounds(text: string, i: nat)
    requires i <= |text|
    ensures LineStart(text, i) <= i
  {
    if i > 0 && text[i - 1] != '\n' {
      StartBounds(text, i - 1);
    }
  }

  lemma {:induction false} EndBounds(text: string, i: nat)
    requires i <= |text|
    ensures i <= LineEnd(text, i) <= |text|
    decreases |text| - i
  {
    if i < |text| && text[i] != '\n' {
      EndBounds(text, i + 1);
    }
  }

  // A line between what precedes and what follows it.
  ghost predicate Bounded(a: string, line: string, b: string) {
    && '\n' !in line
    && (a == "" || a[|a| - 1] == '\n')
    && (b == "" || b[0] == '\n')
  }

  lemma {:induction false} StartInside(a: string, line: string, b: string, c: nat)
    requires Bounded(a, line, b) && c <= |line|
    ensures LineStart(a + line + b, |a| + c) == |a|
  {
    var t := a + line + b;
    if c == 0 {
      assert |a| > 0 ==> t[|a| - 1] == a[|a| - 1];
    } else {
      assert t[|a| + c - 1] == line[c - 1];
      StartInside(a, line, b, c - 1);
    }
  }

  lemma {:induction false} EndInside(a: string, line: string, b: string, c: nat)
    requires Bounded(a, line, b) && c <= |line|
    ensures LineEnd(a + line + b, |a| + c) == |a| + |line|
    decreases |line| - c
  {
    var t := a + line + b;
    if c == |line| {
      assert b != "" ==> t[|a| + c] == b[0];
    } else {
      assert t[|a| + c] == line[c];
      EndInside(a, line, b, c + 1);
    }
  }

  // ------------------------------------------------------------------------
  // Lines joined by newlines
  // ------------------------------------------------------------------------

  function Join(ls: seq<string>): string {
    if ls == [] then "" else if |ls| == 1 then ls[0] else ls[0] + "\n" + Join(ls[1..])
  }

  // What precedes the line after the given lines, and what follows before them.
  function Lead(pre: seq<string>): string {
    if pre == [] then "" else Join(pre) + "\n"
  }

  function Trail(post: seq<string>): string {
    if post == [] then "" else "\n" + Join(post)
  }

  lemma {:induction false} JoinConcat(a: seq<string>, b: seq<string>)
    requires a != [] && b != []
    ensures Join(a + b) == Join(a) + "\n" + Join(b)
  {
    if |a| == 1 {
      assert (a + b)[1..] == b;
    } else {
      JoinConcat(a[1..], b);
      assert (a + b)[1..] == a[1..] + b;
      assert a[0] + "\n" + (Join(a[1..]) + "\n" + Join(b)) == a[0] + "\n" + Join(a[1..]) + "\n" + Join(b);
    }
  }

  lemma JoinAfter(pre: seq<string>, mid: seq<string>)
    requires mid != []
    ensures Same(Join(pre + mid), Lead(pre) + Join(mid))
  {
    if pre == [] {
      assert pre + mid == mid;
      assert Lead(pre) + Join(mid) == Join(mid);
    } else {
      JoinConcat(pre, mid);
    }
  }

  lemma JoinAround(pre: seq<string>, mid: seq<string>, post: seq<string>)
    requires mid != []
    ensures Join(pre + mid + post) == Lead(pre) + Join(mid) + Trail(post)
  {
    JoinAfter(pre, mid);
    if post == [] {
      assert pre + mid + post == pre + mid;
    } else {
      JoinConcat(pre + mid, post);
    }
  }

  // ------------------------------------------------------------------------
  // Splitting at newlines
  // ------------------------------------------------------------------------

  ghost predicate NoNewlines(ls: seq<string>) {
    forall i :: 0 <= i < |ls| ==> '\n' !in ls[i]
  }

  // The lines after one more character.
  function Feed(ls: seq<string>, ch: char): (r: seq<string>)
    requires ls != []
    ensures r != []
  {
    if ch == '\n' then ls + [""] else ls[..|ls| - 1] + [ls[|ls| - 1] + [ch]]
  }

  // The lines of a text: always one more than it has newlines.
  function Split(text: string): (ls: seq<string>)
    ensures ls != []
  {
    if text == "" then [""] else Feed(Split(text[..|text| - 1]), text[|text| - 1])
  }

  lemma JoinLast(pre: seq<string>, last: string)
    ensures Join(pre + [last]) == Lead(pre) + last
  {
    JoinAround(pre, [last], []);
    assert pre + [last] + [] == pre + [last];
  }

  lemma JoinFeed(ls: seq<string>, ch: char)
    requires ls != []
    ensures Join(Feed(ls, ch)) == Join(ls) + [ch]
  {
    var pre, last := ls[..|ls| - 1], ls[|ls| - 1];
    assert ls == pre + [last];
    if ch == '\n' {
      JoinLast(ls, "");
    } else {
      JoinLast(pre, last);
      JoinLast(pre, last + [ch]);
    }
  }

  lemma {:induction false} JoinSplit(text: string)
    ensures Join(Split(text)) == text
  {
    if text == "" {
    } else {
      JoinSplit(text[..|text| - 1]);
      JoinFeed(Split(text[..|text| - 1]), text[|text| - 1]);
    }
  }

  lemma {:induction false} SplitHasNoNewlines(text: string)
    ensures NoNewlines(Split(text))
  {
    if text == "" {
    } else {
      SplitHasNoNewlines(text[..|text| - 1]);
    }
  }

  // Lines without newlines are the lines of their text.
  lemma {:induction false} SplitJoin(ls: seq<string>)
    requires ls != [] && NoNewlines(ls)
    ensures Same(Split(Join(ls)), ls)
    decreases |ls|, |ls[|ls| - 1]|
  {
    var n := |ls| - 1;
    var last := ls[n];
    assert ls == ls[..n] + [last];
    if last != "" {
      var k := |last| - 1;
      var shorter := ls[..n] + [last[..k]];
      SplitJoin(shorter);
      assert Feed(shorter, last[k]) == ls by {
        assert last == last[..k] + [last[k]];
        assert shorter[..|shorter| - 1] == ls[..n];
      }
      SplitFeed(shorter, last[k]);
    } else if n > 0 {
      SplitJoin(ls[..n]);
      assert Feed(ls[..n], '\n') == ls;
      SplitFeed(ls[..n], '\n');
    }
  }

  lemma SplitFeed(ls: seq<string>, ch: char)
    requires ls != []
    ensures Same(Split(Join(Feed(ls, ch))), Feed(Split(Join(ls)), ch))
  {
    JoinFeed(ls, ch);
    var t := Join(ls);
    assert (t + [ch])[..|t + [ch]| - 1] == t;
  }
}
