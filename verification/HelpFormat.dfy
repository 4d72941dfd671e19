/** Length limits in src/bot/commands/help_formatter.py. */
module HelpFormat {
  import opened Text

  const FIELD_LIMIT := 1024

  /** s[:n], where a negative n counts from the end. */
  function Prefix(s: string, n: int): string {
    if n < 0 then (if |s| + n < 0 then "" else s[..|s| + n])
    else if n < |s| then s[..n] else s
  }

  /** s.rfind(c) */
  function LastIndex(s: string, c: char): (i: int)
    ensures -1 <= i < |s|
    ensures i >= 0 ==> s[i] == c
    ensures forall j :: i < j < |s| ==> s[j] != c
  {
    if s == "" then -1 else if s[|s| - 1] == c then |s| - 1 else LastIndex(s[..|s| - 1], c)
  }

  function TruncateText(text: string, limit: int): string {
    if |text| <= limit then text
    else
      var kept := Prefix(text, limit - 3);
      var newline, space := LastIndex(kept, '\n'), LastIndex(kept, ' ');
      if 5 * newline > 4 * limit then Prefix(kept, newline) + "\n..."
      else if 5 * space > 4 * limit then Prefix(kept, space) + "..."
      else kept + "..."
  }

  /** The text stays as it is, or a prefix of it is followed by an ellipsis. */
  lemma TruncationIsAPrefix(text: string, limit: int)
    ensures TruncateText(text, limit) == text ||
            exists n :: 0 <= n <= |text| && (TruncateText(text, limit) == text[..n] + "..." ||
                                             TruncateText(text, limit) == text[..n] + "\n...")
  {
    if |text| > limit {
      var kept := Prefix(text, limit - 3);
      var newline, space := LastIndex(kept, '\n'), LastIndex(kept, ' ');
      var part := if 5 * newline > 4 * limit then Prefix(kept, newline)
                  else if 5 * space > 4 * limit then Prefix(kept, space) else kept;
      assert part == text[..|part|];
    }
  }

  /** The limit is kept exactly when there is nothing to cut or the ellipsis fits. */
  lemma TruncationFitsExactly(text: string, limit: int)
    ensures |TruncateText(text, limit)| <= limit <==> |text| <= limit || limit >= 3
  {
  }

  /** A character at which a text cut at `end` may be broken: late, and the last of its kind before the end. */
  predicate LastLate(text: string, n: nat, c: char, limit: int, end: nat) {
    && n < end <= |text| && text[n] == c && 5 * n > 4 * limit
    && forall i :: n < i < end ==> text[i] != c
  }

  predicate NoneLate(text: string, c: char, limit: int, end: nat)
    requires end <= |text|
  {
    forall i :: 0 <= i < end && 5 * i > 4 * limit ==> text[i] != c
  }

  /**
    A cut text ends at its last newline if that is late enough, else at its last space if that is, else
    at the limit.
   */
  lemma TruncationBreaksLate(text: string, limit: int) returns (n: nat)
    requires 3 <= limit < |text|
    ensures n <= limit - 3
    ensures
      var end := limit - 3;
      || (LastLate(text, n, '\n', limit, end) && TruncateText(text, limit) == text[..n] + "\n...")
      || (NoneLate(text, '\n', limit, end) && LastLate(text, n, ' ', limit, end)
          && TruncateText(text, limit) == text[..n] + "...")
      || (NoneLate(text, '\n', limit, end) && NoneLate(text, ' ', limit, end) && n == end
          && TruncateText(text, limit) == text[..n] + "...")
  {
    var kept := text[..limit - 3];
    var newline, space := LastIndex(kept, '\n'), LastIndex(kept, ' ');
    assert forall i :: 0 <= i < |kept| ==> kept[i] == text[i];
    if 5 * newline > 4 * limit {
      n := newline;
    } else if 5 * space > 4 * limit {
      n := space;
    } else {
      n := limit - 3;
    }
    assert kept[..n] == text[..n];
  }

  lemma ShortTextIsKept(text: string, limit: int)
    requires |text| <= limit
    ensures TruncateText(text, limit) == text
  {
  }

  /** The value of a category's field in the command list. */
  function ListField(lines: seq<string>): string {
    var joined := Join(lines, "\n");
    if |joined| <= FIELD_LIMIT then joined
    else
      var kept := joined[..FIELD_LIMIT - 3];
      var newline := LastIndex(kept, '\n');
      (if newline > 0 then kept[..newline] else kept) + "\n..."
  }

  /**
    The field keeps Discord's limit exactly when nothing is cut or a newline after the first character
    can be cut at.
   */
  lemma ListFieldFitsExactly(lines: seq<string>)
    ensures
      var joined := Join(lines, "\n");
      |ListField(lines)| <= FIELD_LIMIT <==>
      |joined| <= FIELD_LIMIT || exists i :: 0 < i < FIELD_LIMIT - 3 && joined[i] == '\n'
  {
    var joined := Join(lines, "\n");
    if |joined| > FIELD_LIMIT {
      var kept := joined[..FIELD_LIMIT - 3];
      assert forall i :: 0 <= i < |kept| ==> kept[i] == joined[i];
      assert |ListField(lines)| <= FIELD_LIMIT <==> LastIndex(kept, '\n') > 0;
    }
  }

  lemma {:induction false} NewlineAfter(lines: seq<string>, k: nat)
    requires 0 < k < |lines|
    ensures |Join(lines[..k], "\n")| < |Join(lines, "\n")|
    ensures Join(lines, "\n")[|Join(lines[..k], "\n")|] == '\n'
    ensures Join(lines, "\n")[..|Join(lines[..k], "\n")|] == Join(lines[..k], "\n")
  {
    var rest := Join(lines[1..], "\n");
    assert Join(lines, "\n") == lines[0] + "\n" + rest;
    if k == 1 {
      assert lines[..1] == [lines[0]];
    } else {
      NewlineAfter(lines[1..], k - 1);
      assert lines[..k][1..] == lines[1..][..k - 1];
      assert Join(lines[..k], "\n") == lines[0] + "\n" + Join(lines[1..][..k - 1], "\n");
    }
  }

  lemma {:induction false} NewlineEndsLines(lines: seq<string>, i: nat) returns (k: nat)
    requires forall l :: l in lines ==> '\n' !in l
    requires i < |Join(lines, "\n")| && Join(lines, "\n")[i] == '\n'
    ensures 0 < k < |lines| && i == |Join(lines[..k], "\n")|
  {
    assert lines[0] in lines;
    var n := |lines[0]|;
    assert forall j :: 0 <= j < n ==> Join(lines, "\n")[j] == lines[0][j] && lines[0][j] in lines[0];
    if i < n {
      assert false;
    } else if i == n {
      k := 1;
      assert lines[..1] == [lines[0]];
    } else {
      assert Join(lines, "\n") == lines[0] + "\n" + Join(lines[1..], "\n");
      var j := NewlineEndsLines(lines[1..], i - n - 1);
      k := j + 1;
      assert lines[..k][1..] == lines[1..][..j];
      assert Join(lines[..k], "\n") == lines[0] + "\n" + Join(lines[1..][..j], "\n");
    }
  }

  /** The lines of the field as it is shown; a description with a newline takes more than one. */
  function ShownLines(lines: seq<string>): seq<string> {
    SplitOn(Join(lines, "\n"), '\n')
  }

  /** A cut field that can be cut at a newline is as many whole lines as leave room, and the ellipsis. */
  lemma CutFieldIsWholeLines(lines: seq<string>) returns (k: nat)
    requires |Join(lines, "\n")| > FIELD_LIMIT
    requires exists i :: 0 < i < FIELD_LIMIT - 3 && Join(lines, "\n")[i] == '\n'
    ensures
      var shown := ShownLines(lines);
      && 0 < k < |shown| && ListField(lines) == Join(shown[..k], "\n") + "\n..."
      && |Join(shown[..k], "\n")| < FIELD_LIMIT - 3 <= |Join(shown[..k + 1], "\n")|
  {
    JoinOfSplit(Join(lines, "\n"), '\n');
    SplitLacksSeparator(Join(lines, "\n"), '\n');
    k := CutAtNewline(ShownLines(lines));
  }

  lemma CutAtNewline(lines: seq<string>) returns (k: nat)
    requires |Join(lines, "\n")| > FIELD_LIMIT
    requires forall l :: l in lines ==> '\n' !in l
    requires exists i :: 0 < i < FIELD_LIMIT - 3 && Join(lines, "\n")[i] == '\n'
    ensures 0 < k < |lines| && ListField(lines) == Join(lines[..k], "\n") + "\n..."
    ensures |Join(lines[..k], "\n")| < FIELD_LIMIT - 3 <= |Join(lines[..k + 1], "\n")|
  {
    var joined := Join(lines, "\n");
    var newline := LastNewline(joined);
    k := NewlineEndsLines(lines, newline);
    NewlineAfter(lines, k);
    if k + 1 < |lines| {
      NewlineAfter(lines, k + 1);
      LongerJoin(lines, k);
    } else {
      assert lines[..k + 1] == lines;
    }
  }

  /** The last newline in the part that is kept. */
  lemma LastNewline(joined: string) returns (newline: nat)
    requires |joined| > FIELD_LIMIT
    requires exists i :: 0 < i < FIELD_LIMIT - 3 && joined[i] == '\n'
    ensures 0 < newline == LastIndex(joined[..FIELD_LIMIT - 3], '\n') < FIELD_LIMIT - 3
    ensures joined[newline] == '\n' && joined[..FIELD_LIMIT - 3][..newline] == joined[..newline]
    ensures forall n :: newline < n < FIELD_LIMIT - 3 ==> joined[n] != '\n'
  {
    var kept := joined[..FIELD_LIMIT - 3];
    var i :| 0 < i < FIELD_LIMIT - 3 && joined[i] == '\n';
    assert forall n :: 0 <= n < |kept| ==> kept[n] == joined[n];
    assert kept[i] == '\n';
    newline := LastIndex(kept, '\n');
  }

  lemma {:induction false} LongerJoin(lines: seq<string>, k: nat)
    requires 0 < k < |lines|
    ensures |Join(lines[..k], "\n")| < |Join(lines[..k + 1], "\n")|
  {
    NewlineAfter(lines[..k + 1], k);
    assert lines[..k + 1][..k] == lines[..k];
  }

  // ---------------------------------------------------------------- the lines the list is made of

  /** What a line shows of a command. */
  datatype Shown = Shown(name: string, description: string)

  function Line(c: Shown): (line: string)
    ensures 0 < |line| <= |c.name| + 69
  {
    "`/" + c.name + "` - " + if |c.description| > 60 then c.description[..60] + "..." else c.description
  }

  function Lines(cs: seq<Shown>): (lines: seq<string>)
    ensures |lines| == |cs|
    ensures forall i :: 0 <= i < |cs| ==> lines[i] == Line(cs[i])
  {
    seq(|cs|, i requires 0 <= i < |cs| => Line(cs[i]))
  }

  /**
    A first line that leaves room keeps every field within the limit: it ends at a newline to cut at, if
    anything is cut.
   */
  lemma ShortFirstNameFits(cs: seq<Shown>)
    requires cs != [] ==> |cs[0].name| <= FIELD_LIMIT - 73
    ensures |ListField(Lines(cs))| <= FIELD_LIMIT
  {
    var lines := Lines(cs);
    ListFieldFitsExactly(lines);
    if |cs| > 1 {
      NewlineAfter(lines, 1);
      assert lines[..1] == [lines[0]] && Join([lines[0]], "\n") == lines[0];
      assert lines[0] == Line(cs[0]);
    }
  }

  /** A single command with a name of a thousand and twenty characters exceeds the limit by one. */
  lemma LongNameOverflows(name: string)
    requires |name| == 1020 && '\n' !in name
    ensures |ListField(Lines([Shown(name, "")]))| == FIELD_LIMIT + 1
  {
    var c := Shown(name, "");
    var lines := Lines([c]);
    assert lines == [Line(c)] && Join(lines, "\n") == Line(c) == "`/" + name + "` - ";
    var kept := Line(c)[..FIELD_LIMIT - 3];
    forall i | 0 <= i < |kept|
      ensures kept[i] != '\n'
    {
      assert 2 <= i < 1022 ==> Line(c)[i] == name[i - 2];
    }
    assert LastIndex(kept, '\n') == -1;
  }

  /** What fits is shown whole, and what cannot be cut at a newline is cut at the limit. */
  lemma FieldWithoutCutPoint(lines: seq<string>)
    ensures
      var joined := Join(lines, "\n");
      && (|joined| <= FIELD_LIMIT ==> ListField(lines) == joined)
      && (|joined| > FIELD_LIMIT && (forall i :: 0 < i < FIELD_LIMIT - 3 ==> joined[i] != '\n') ==>
            ListField(lines) == joined[..FIELD_LIMIT - 3] + "\n...")
  {
    var joined := Join(lines, "\n");
    if |joined| > FIELD_LIMIT && forall i :: 0 < i < FIELD_LIMIT - 3 ==> joined[i] != '\n' {
      var kept := joined[..FIELD_LIMIT - 3];
      assert forall i :: 0 <= i < |kept| ==> kept[i] == joined[i];
    }
  }

  /** A line names the command and previews at most sixty characters of its description. */
  lemma LineNamesAndPreviews(c: Shown)
    ensures |c.description| <= 60 ==> Line(c) == "`/" + c.name + "` - " + c.description
    ensures |c.description| > 60 ==>
              |Line(c)| == |c.name| + 69 && Line(c)[|Line(c)| - 3..] == "..."
              && Line(c)[..|Line(c)| - 3] == "`/" + c.name + "` - " + c.description[..60]
  {
  }
}
