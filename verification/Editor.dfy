// apps/editor/editor.c: the buffer of the text editor as the source keeps it, an
// array of lines with spare slots, each line a character array with a length
// and a terminating zero.  Every access is inside the arrays, and every edit,
// move, load and save is proved to be the matching one on a flat string.
//
// Arrays that grow are sequences whose length is the capacity.
module Editor {
  import opened Values
  import opened EditorText
  import opened EditorDoc

  datatype Line = Line(content: string, length: nat)

  ghost predicate ValidLine(l: Line) {
    l.length < |l.content| && l.content[l.length] == '\0'
  }

  function Text(l: Line): string
    requires l.length <= |l.content|
  {
    l.content[..l.length]
  }

  // memmove and memcpy: n elements from src to dst, inside the array.
  function Move<T>(a: seq<T>, dst: nat, src: nat, n: nat): (r: seq<T>)
    requires dst + n <= |a| && src + n <= |a|
    ensures |r| == |a|
  {
    a[..dst] + a[src..src + n] + a[dst + n..]
  }

  // ------------------------------------------------------------------------
  // One line
  // ------------------------------------------------------------------------

  method InitLine() returns (l: Line)
    ensures ValidLine(l) && Text(l) == ""
  {
    l := Line(seq(128, i => '\0'), 0);
  }

  method EnsureCapacity(l: Line, required: nat) returns (r: Line)
    requires ValidLine(l)
    ensures ValidLine(r) && r.length == l.length && l.content <= r.content
    ensures |r.content| >= required
  {
    r := l;
    if required >= |l.content| {
      var capacity := |l.content|;
      while capacity < required
        invariant capacity >= |l.content| > 0
      {
        capacity := capacity * 2;
      }
      r := Line(l.content + seq(capacity - |l.content|, i => '\0'), l.length);
    }
  }

  lemma TextWithout(a: string, n: nat, c: nat)
    requires 0 < c <= n < |a|
    ensures Same(Move(a, c - 1, c, n - c + 1)[..n - 1], a[..n][..c - 1] + a[..n][c..])
  {
    var x, y := a[..c - 1], a[c..n + 1];
    assert a[c..c + (n - c + 1)] == y && |x + y| == n;
    assert Move(a, c - 1, c, n - c + 1)[..n - 1] == x + y[..n - c];
    assert y[..n - c] == a[..n][c..] && a[..n][..c - 1] == x;
  }

  method InsertInLine(l: Line, c: nat, ch: char) returns (r: Line)
    requires ValidLine(l) && c <= l.length
    ensures ValidLine(r) && Text(r) == Text(l)[..c] + [ch] + Text(l)[c..]
  {
    r := EnsureCapacity(l, l.length + 2);
    if c < r.length {
      r := r.(content := Move(r.content, c + 1, c, r.length - c));
    }
    r := r.(content := r.content[c := ch]);
    r := r.(length := r.length + 1);
    r := r.(content := r.content[r.length := '\0']);
  }

  method DeleteInLine(l: Line, c: nat) returns (r: Line)
    requires ValidLine(l) && 0 < c <= l.length
    ensures ValidLine(r) && Text(r) == Text(l)[..c - 1] + Text(l)[c..]
  {
    TextWithout(l.content, l.length, c);
    r := l.(content := Move(l.content, c - 1, c, l.length - c + 1));
    r := r.(length := r.length - 1);
  }

  method AppendLine(p: Line, l: Line) returns (r: Line)
    requires ValidLine(p) && ValidLine(l)
    ensures ValidLine(r) && Text(r) == Text(p) + Text(l)
  {
    r := EnsureCapacity(p, p.length + l.length + 1);
    r := Line(r.content[..p.length] + l.content[..l.length + 1] + r.content[p.length + l.length + 1..],
              p.length + l.length);
  }

  method CutLine(l: Line, c: nat) returns (head: Line, tail: Line)
    requires ValidLine(l) && c <= l.length
    ensures ValidLine(head) && ValidLine(tail)
    ensures Text(head) == Text(l)[..c] && Text(tail) == Text(l)[c..]
  {
    head := l;
    tail := InitLine();
    if c < l.length {
      var remaining := l.length - c;
      tail := EnsureCapacity(tail, remaining + 1);
      tail := tail.(content := l.content[c..c + remaining] + tail.content[remaining..]);
      tail := Line(tail.content[remaining := '\0'], remaining);
      head := Line(l.content[c := '\0'], c);
    }
  }

  // A cursor move by signs, the vertical part first.
  function Moved(f: Flat, dx: int, dy: int): Flat
    requires f.at <= |f.text|
  {
    MovesStay(f);
    var g := if dy < 0 then Up(f) else if dy > 0 then Down(f) else f;
    if dx < 0 then Left(g) else if dx > 0 then Right(g) else g
  }

  lemma MovesStay(f: Flat)
    requires f.at <= |f.text|
    ensures Up(f).text == f.text && Up(f).at <= |f.text|
    ensures Down(f).text == f.text && Down(f).at <= |f.text|
  {
    EndBounds(f.text, f.at);
    StartBounds(f.text, f.at);
    var e := LineEnd(f.text, f.at);
    if e < |f.text| {
      EndBounds(f.text, e + 1);
    }
  }

  // ------------------------------------------------------------------------
  // The used lines
  // ------------------------------------------------------------------------

  ghost predicate ValidLines(ls: seq<Line>) {
    forall i :: 0 <= i < |ls| ==> ValidLine(ls[i])
  }

  function Texts(ls: seq<Line>): (ts: seq<string>)
    requires forall i :: 0 <= i < |ls| ==> ls[i].length <= |ls[i].content|
    ensures |ts| == |ls| && forall i :: 0 <= i < |ls| ==> ts[i] == Text(ls[i])
  {
    seq(|ls|, i requires 0 <= i < |ls| => Text(ls[i]))
  }

  lemma TextsUpdate(ls: seq<Line>, i: nat, l: Line)
    requires ValidLines(ls) && i < |ls| && ValidLine(l)
    ensures ValidLines(ls[i := l]) && Same(Texts(ls[i := l]), Texts(ls)[i := Text(l)])
  {
    assert Texts(ls[i := l]) == Texts(ls)[i := Text(l)];
  }

  lemma TextsConcat(a: seq<Line>, b: seq<Line>)
    requires ValidLines(a) && ValidLines(b)
    ensures ValidLines(a + b) && Same(Texts(a + b), Texts(a) + Texts(b))
  {
    assert Texts(a + b) == Texts(a) + Texts(b);
  }

  lemma TextsSlice(ls: seq<Line>, i: nat, j: nat)
    requires ValidLines(ls) && i <= j <= |ls|
    ensures ValidLines(ls[i..j]) && Same(Texts(ls[i..j]), Texts(ls)[i..j])
  {
    assert Texts(ls[i..j]) == Texts(ls)[i..j];
  }

  // One line replaced by two, and two by one.
  lemma TextsAround(ls: seq<Line>, i: nat, j: nat, mid: seq<Line>)
    requires ValidLines(ls) && ValidLines(mid) && i <= j <= |ls|
    ensures ValidLines(ls[..i] + mid + ls[j..])
    ensures Same(Texts(ls[..i] + mid + ls[j..]), Texts(ls)[..i] + Texts(mid) + Texts(ls)[j..])
  {
    TextsSlice(ls, 0, i);
    TextsSlice(ls, j, |ls|);
    assert ls[..i] == ls[0..i] && ls[j..] == ls[j..|ls|];
    assert Texts(ls)[..i] == Texts(ls)[0..i] && Texts(ls)[j..] == Texts(ls)[j..|ls|];
    TextsConcat(ls[..i], mid);
    TextsConcat(ls[..i] + mid, ls[j..]);
  }

  // The slots after room is made below line i and the two halves stored.
  lemma Opened(slots: seq<Line>, count: nat, i: nat, head: Line, tail: Line)
    requires i < count < |slots|
    ensures Same(Move(slots, i + 2, i + 1, count - i - 1)[i + 1 := tail][i := head][..count + 1],
                 slots[..count][..i] + [head, tail] + slots[..count][i + 1..])
  {
    assert Move(slots, i + 2, i + 1, count - i - 1)[i + 1 := tail][i := head][..count + 1]
        == slots[..count][..i] + [head, tail] + slots[..count][i + 1..];
  }

  // ------------------------------------------------------------------------
  // The buffer
  // ------------------------------------------------------------------------

  class Buffer {
    var lines: seq<Line>
    var lineCount: nat
    var cursorLine: nat
    var cursorColumn: nat
    var modified: bool

    ghost predicate Sized()
      reads this
    {
      0 < lineCount <= |lines| && ValidLines(lines[..lineCount])
    }

    ghost function Now(): Doc
      requires Sized()
      reads this
    {
      Doc(Texts(lines[..lineCount]), cursorLine, cursorColumn)
    }

    ghost predicate Valid()
      reads this
    {
      Sized() && ValidDoc(Now())
    }

    // The text that saving would write, and the place of the cursor in it.
    ghost function AsFlat(): Flat
      requires Valid()
      reads this
    {
      FlatOf(Now())
    }

    constructor ()
      ensures Valid() && AsFlat() == Flat("", 0)
    {
      var l := InitLine();
      lines := seq(100, i => Line("", 0))[0 := l];
      lineCount := 1;
      cursorLine, cursorColumn := 0, 0;
      modified := false;
      new;
      assert lines[..1] == [l];
    }

    method InsertChar(ch: char)
      requires Valid() && ch != '\n'
      modifies this
      ensures Valid() && FlatOf(old(Now())).at <= |FlatOf(old(Now())).text|
      ensures Same(AsFlat(), Insert(old(AsFlat()), ch))
    {
      ghost var d, used := Now(), lines[..lineCount];
      var l := InsertInLine(lines[cursorLine], cursorColumn, ch);
      lines := lines[cursorLine := l];
      cursorColumn := cursorColumn + 1;
      modified := true;
      assert lines[..lineCount] == used[cursorLine := l];
      TextsUpdate(used, cursorLine, l);
      assert Same(Now(), Put(d, ch));
      PutValid(d, ch);
      PutIsInsert(d, ch);
    }
  
    method DeleteChar()
      requires Valid()
      modifies this
      ensures Valid() && FlatOf(old(Now())).at <= |FlatOf(old(Now())).text|
      ensures Same(AsFlat(), Delete(old(AsFlat())))
    {
      ghost var d, used := Now(), lines[..lineCount];
      EraseValid(d);
      EraseIsDelete(d);
      if cursorColumn > 0 {
        var l := DeleteInLine(lines[cursorLine], cursorColumn);
        lines := lines[cursorLine := l];
        cursorColumn := cursorColumn - 1;
        modified := true;
        assert lines[..lineCount] == used[cursorLine := l];
        TextsUpdate(used, cursorLine, l);
        assert Same(Now(), Erase(d));
      } else if cursorLine > 0 {
        MergeUp();
        assert Same(Now(), Erase(d));
      }
    }

    method MergeUp()
      requires Valid() && cursorColumn == 0 && cursorLine > 0
      modifies this
      ensures Sized() && Same(Now(), Erase(old(Now())))
    {
      ghost var d, used := Now(), lines[..lineCount];
      var i, prevLen := cursorLine, lines[cursorLine - 1].length;
      var p := AppendLine(lines[i - 1], lines[i]);
      lines := lines[i - 1 := p];
      lines := Move(lines, i, i + 1, lineCount - i - 1);
      lineCount := lineCount - 1;
      cursorLine := i - 1;
      cursorColumn := prevLen;
      modified := true;
      assert lines[..lineCount] == used[..i - 1] + [p] + used[i + 1..];
      TextsAround(used, i - 1, i + 1, [p]);
      assert Texts([p]) == [d.lines[i - 1] + d.lines[i]];
    }

    method InsertLine()
      requires Valid()
      modifies this
      ensures Valid() && FlatOf(old(Now())).at <= |FlatOf(old(Now())).text|
      ensures Same(AsFlat(), Insert(old(AsFlat()), '\n'))
    {
      ghost var d := Now();
      BreakValid(d);
      BreakIsInsert(d);
      BreakLine();
      assert Same(Now(), Break(d));
    }

    method BreakLine()
      requires Valid()
      modifies this
      ensures Sized() && Same(Now(), Break(old(Now())))
    {
      ghost var d, used := Now(), lines[..lineCount];
      if lineCount >= |lines| {
        lines := lines + seq(|lines|, i => Line("", 0));
      }
      var i := cursorLine;
      assert lines[..lineCount] == used;
      var head, tail := CutLine(lines[i], cursorColumn);
      Opened(lines, lineCount, i, head, tail);
      lines := Move(lines, i + 2, i + 1, lineCount - i - 1);
      lines := lines[i + 1 := tail][i := head];
      lineCount := lineCount + 1;
      cursorLine := i + 1;
      cursorColumn := 0;
      modified := true;
      TextsAround(used, i, i + 1, [head, tail]);
      assert Texts([head, tail]) == [Text(head), Text(tail)];
    }

    // Vertical movement first, then horizontal, as in the source.
    method MoveCursor(dx: int, dy: int)
      requires Valid()
      modifies `cursorLine, `cursorColumn
      ensures Valid() && FlatOf(old(Now())).at <= |FlatOf(old(Now())).text|
      ensures Same(AsFlat(), Moved(old(AsFlat()), dx, dy))
    {
      ghost var d := Now();
      FlatBounds(d);
      MoveVertically(dy);
      ghost var e := Now();
      FlatBounds(e);
      StepsAreFlat(e);
      if dx < 0 && cursorColumn > 0 {
        cursorColumn := cursorColumn - 1;
      } else if dx > 0 && cursorColumn < lines[cursorLine].length {
        cursorColumn := cursorColumn + 1;
      }
      assert Same(Now(), if dx < 0 then StepLeft(e) else if dx > 0 then StepRight(e) else e);
    }

    method MoveVertically(dy: int)
      requires Valid()
      modifies `cursorLine, `cursorColumn
      ensures Valid() && FlatOf(old(Now())).at <= |FlatOf(old(Now())).text|
      ensures Same(AsFlat(),
                   if dy < 0 then Up(old(AsFlat())) else if dy > 0 then Down(old(AsFlat())) else old(AsFlat()))
    {
      ghost var d := Now();
      FlatBounds(d);
      ClimbIsUp(d);
      DescendIsDown(d);
      if dy < 0 && cursorLine > 0 {
        cursorLine := cursorLine - 1;
        if cursorColumn > lines[cursorLine].length {
          cursorColumn := lines[cursorLine].length;
        }
      } else if dy > 0 && cursorLine < lineCount - 1 {
        cursorLine := cursorLine + 1;
        if cursorColumn > lines[cursorLine].length {
          cursorColumn := lines[cursorLine].length;
        }
      }
      assert Same(Now(), if dy < 0 then Climb(d) else if dy > 0 then Descend(d) else d);
    }
  
    method MoveToLineStart()
      requires Valid()
      modifies `cursorColumn
      ensures Valid() && FlatOf(old(Now())).at <= |FlatOf(old(Now())).text|
      ensures AsFlat().text == old(AsFlat()).text && AsFlat().at == LineStart(old(AsFlat()).text, old(AsFlat()).at)
    {
      FlatBounds(Now());
      LineBounds(Now().lines, cursorLine, cursorColumn);
      cursorColumn := 0;
    }

    method MoveToLineEnd()
      requires Valid()
      modifies `cursorColumn
      ensures Valid() && FlatOf(old(Now())).at <= |FlatOf(old(Now())).text|
      ensures AsFlat().text == old(AsFlat()).text && AsFlat().at == LineEnd(old(AsFlat()).text, old(AsFlat()).at)
    {
      FlatBounds(Now());
      LineBounds(Now().lines, cursorLine, cursorColumn);
      cursorColumn := lines[cursorLine].length;
    }

    // ----------------------------------------------------------------------
    // Files
    // ----------------------------------------------------------------------

    method Save() returns (out: string)
      requires Sized()
      modifies `modified
      ensures Sized() && Same(out, Join(Now().lines))
    {
      ghost var ts := Now().lines;
      out := "";
      for i := 0 to lineCount
        invariant Same(out, if i < lineCount then Lead(ts[..i]) else Join(ts))
      {
        var line := lines[i];
        assert ts[i] == Text(line) && ts[..i + 1] == ts[..i] + [ts[i]];
        JoinLast(ts[..i], ts[i]);
        out := out + line.content[..line.length];
        if i < lineCount - 1 {
          out := out + "\n";
        } else {
          assert ts[..i + 1] == ts;
        }
      }
      modified := false;
    }

    // Append a line, doubling the slots when they are full.
    method PushLine(l: Line)
      requires 0 < |lines| && lineCount <= |lines| && ValidLines(lines[..lineCount]) && ValidLine(l)
      modifies `lines, `lineCount
      ensures 0 < lineCount <= |lines| && lineCount == old(lineCount) + 1
      ensures Same(lines[..lineCount], old(lines[..lineCount]) + [l])
    {
      ghost var used := lines[..lineCount];
      if lineCount >= |lines| {
        lines := lines + seq(|lines|, i => Line("", 0));
      }
      lines := lines[lineCount := l];
      lineCount := lineCount + 1;
      assert lines[..lineCount] == used + [l];
    }

    // The lines finished so far and the one being read are those of the prefix.
    ghost predicate Loaded(current: Line, prefix: string)
      reads this
    {
      && 0 < |lines| && lineCount <= |lines| && ValidLines(lines[..lineCount]) && ValidLine(current)
      && Same(Texts(lines[..lineCount]) + [Text(current)], Split(prefix))
    }

    method LoadChar(current: Line, ch: char, ghost prefix: string) returns (next: Line)
      requires Loaded(current, prefix)
      modifies `lines, `lineCount
      ensures Loaded(next, prefix + [ch])
    {
      ghost var used := lines[..lineCount];
      assert (prefix + [ch])[..|prefix|] == prefix;
      if ch == '\n' {
        PushLine(current);
        next := InitLine();
        TextsConcat(used, [current]);
        assert Texts([current]) == [Text(current)];
      } else {
        next := EnsureCapacity(current, current.length + 2);
        next := next.(content := next.content[next.length := ch]);
        next := next.(length := next.length + 1);
        next := next.(content := next.content[next.length := '\0']);
        assert Text(next) == Text(current) + [ch];
      }
      ghost var was := Texts(used) + [Text(current)];
      assert was[..|was| - 1] == Texts(used);
      assert Same(Split(prefix + [ch]), Feed(was, ch));
    }

    // One buffer of at most 1024 bytes.
    method LoadChunk(current: Line, file: string, pos: nat, bytes: nat) returns (next: Line)
      requires pos + bytes <= |file| && Loaded(current, file[..pos])
      modifies `lines, `lineCount
      ensures Loaded(next, file[..pos + bytes])
    {
      next := current;
      for i := 0 to bytes
        invariant Loaded(next, file[..pos + i])
      {
        assert file[..pos + i] + [file[pos + i]] == file[..pos + i + 1];
        next := LoadChar(next, file[pos + i], file[..pos + i]);
      }
    }

    // The last line is added whether or not it is empty.
    method LoadLast(current: Line, ghost file: string)
      requires Loaded(current, file)
      modifies `lines, `lineCount
      ensures Sized() && Same(Now().lines, Split(file))
    {
      ghost var used := lines[..lineCount];
      PushLine(current);
      TextsConcat(used, [current]);
      assert Texts([current]) == [Text(current)];
    }

    method Load(file: string)
      modifies this
      ensures Sized() && Same(Now().lines, Split(file)) && !modified
      ensures cursorLine == old(cursorLine) && cursorColumn == old(cursorColumn)
    {
      lines := seq(100, i => Line("", 0));
      lineCount := 0;
      var current := InitLine();
      assert Texts(lines[..0]) + [Text(current)] == [""] && file[..0] == "";
      var pos: nat := 0;
      while pos < |file|
        invariant pos <= |file| && Loaded(current, file[..pos])
        invariant cursorLine == old(cursorLine) && cursorColumn == old(cursorColumn)
      {
        var bytes := if |file| - pos < 1024 then |file| - pos else 1024;
        current := LoadChunk(current, file, pos, bytes);
        pos := pos + bytes;
      }
      assert file[..|file|] == file;
      LoadLast(current, file);
      modified := false;
    }
  }

  // Loading what was saved gives the same lines back.
  method SaveAndReload(b: Buffer) returns (c: Buffer)
    requires b.Valid()
    modifies b
    ensures b.Valid() && b.Now() == old(b.Now())
    ensures fresh(c) && c.Valid() && Same(c.Now().lines, b.Now().lines)
    ensures c.AsFlat() == Flat(b.AsFlat().text, 0)
  {
    var file := b.Save();
    c := new Buffer();
    c.Load(file);
    SplitJoin(b.Now().lines);
  }

  // ------------------------------------------------------------------------
  // Whole runs
  // ------------------------------------------------------------------------

  datatype Command = Type(ch: char) | Backspace | Enter | Arrow(dx: int, dy: int) | Home | End

  // The same command on a flat string.
  function Step(f: Flat, c: Command): Flat
    requires f.at <= |f.text|
  {
    StartBounds(f.text, f.at);
    EndBounds(f.text, f.at);
    match c
    case Type(ch) => Insert(f, ch)
    case Backspace => Delete(f)
    case Enter => Insert(f, '\n')
    case Arrow(dx, dy) => Moved(f, dx, dy)
    case Home => f.(at := LineStart(f.text, f.at))
    case End => f.(at := LineEnd(f.text, f.at))
  }

  lemma StepStays(f: Flat, c: Command)
    requires f.at <= |f.text|
    ensures Step(f, c).at <= |Step(f, c).text|
  {
    StartBounds(f.text, f.at);
    EndBounds(f.text, f.at);
    MovesStay(f);
  }

  function Steps(f: Flat, cs: seq<Command>): (r: Flat)
    requires f.at <= |f.text|
    ensures r.at <= |r.text|
  {
    if cs == [] then f
    else
      var g := Steps(f, cs[..|cs| - 1]);
      StepStays(g, cs[|cs| - 1]);
      Step(g, cs[|cs| - 1])
  }

  method Do(b: Buffer, c: Command)
    requires b.Valid() && (c.Type? ==> c.ch != '\n')
    modifies b
    ensures b.Valid() && FlatOf(old(b.Now())).at <= |FlatOf(old(b.Now())).text|
    ensures Same(b.AsFlat(), Step(old(b.AsFlat()), c))
  {
    match c {
      case Type(ch) => b.InsertChar(ch);
      case Backspace => b.DeleteChar();
      case Enter => b.InsertLine();
      case Arrow(dx, dy) => b.MoveCursor(dx, dy);
      case Home => b.MoveToLineStart();
      case End => b.MoveToLineEnd();
    }
  }

  // Every run of commands on the buffer is the run on the flat string.
  method Run(b: Buffer, cs: seq<Command>)
    requires b.Valid() && forall i :: 0 <= i < |cs| ==> cs[i].Type? ==> cs[i].ch != '\n'
    modifies b
    ensures b.Valid() && FlatOf(old(b.Now())).at <= |FlatOf(old(b.Now())).text|
    ensures Same(b.AsFlat(), Steps(old(b.AsFlat()), cs))
  {
    FlatBounds(b.Now());
    ghost var f := b.AsFlat();
    for i := 0 to |cs|
      invariant b.Valid() && Same(b.AsFlat(), Steps(f, cs[..i]))
    {
      assert cs[..i + 1][..i] == cs[..i];
      Do(b, cs[i]);
    }
    assert cs[..|cs|] == cs;
  }
}
