/** The string operations of Python that the models use, on ASCII letters and white space. */
module Text {

  /** Tab to carriage return, the four information separators, and space. */
  predicate IsSpace(c: char) {
    '\t' <= c <= '\r' || '\U{1C}' <= c <= ' '
  }

  predicate Blank(s: string) {
    forall i :: 0 <= i < |s| ==> IsSpace(s[i])
  }

  predicate SpaceFree(s: string) {
    forall i :: 0 <= i < |s| ==> !IsSpace(s[i])
  }

  function StripLeft(s: string): (r: string)
    ensures |r| <= |s|
    ensures r != "" ==> !IsSpace(r[0])
  {
    if s != "" && IsSpace(s[0]) then StripLeft(s[1..]) else s
  }

  function StripRight(s: string): (r: string)
    ensures |r| <= |s|
    ensures r != "" ==> !IsSpace(r[|r| - 1])
    ensures r <= s
  {
    if s != "" && IsSpace(s[|s| - 1]) then StripRight(s[..|s| - 1]) else s
  }

  /** str.strip() */
  function Strip(s: string): (r: string)
    ensures r != "" ==> !IsSpace(r[0]) && !IsSpace(r[|r| - 1])
  {
    StripRight(StripLeft(s))
  }

  /** Text that strip() leaves alone. */
  predicate Trimmed(s: string) {
    s != "" ==> !IsSpace(s[0]) && !IsSpace(s[|s| - 1])
  }

  lemma {:induction false} StripLeftOfPadded(pad: string, s: string)
    requires Blank(pad)
    ensures StripLeft(pad + s) == StripLeft(s)
  {
    if pad == "" {
      assert pad + s == s;
    } else {
      assert (pad + s)[1..] == pad[1..] + s;
      StripLeftOfPadded(pad[1..], s);
    }
  }

  lemma {:induction false} StripRightOfPadded(s: string, pad: string)
    requires Blank(pad)
    ensures StripRight(s + pad) == StripRight(s)
  {
    if pad == "" {
      assert s + pad == s;
    } else {
      assert (s + pad)[..|s + pad| - 1] == s + pad[..|pad| - 1];
      StripRightOfPadded(s, pad[..|pad| - 1]);
    }
  }

  lemma StripOfPadded(left: string, s: string, right: string)
    requires Blank(left) && Blank(right) && Trimmed(s)
    ensures Strip(left + s + right) == s
  {
    assert left + s + right == left + (s + right);
    StripLeftOfPadded(left, s + right);
    if s == "" {
      assert s + right == right + "";
      StripLeftOfPadded(right, "");
    } else {
      StripRightOfPadded(s, right);
    }
  }

  function WordLength(s: string): (n: nat)
    ensures n <= |s|
    ensures forall i :: 0 <= i < n ==> !IsSpace(s[i])
    ensures n < |s| ==> IsSpace(s[n])
    ensures s != "" && !IsSpace(s[0]) ==> n > 0
  {
    if s == "" || IsSpace(s[0]) then 0 else 1 + WordLength(s[1..])
  }

  /** str.split() */
  function Words(s: string): (ws: seq<string>)
    ensures forall w :: w in ws ==> w != "" && SpaceFree(w)
    decreases |s|
  {
    var t := StripLeft(s);
    if t == "" then []
    else
      var n := WordLength(t);
      [t[..n]] + Words(t[n..])
  }

  /** sep.join(parts) */
  function Join(parts: seq<string>, sep: string): string {
    if |parts| == 0 then ""
    else if |parts| == 1 then parts[0]
    else parts[0] + sep + Join(parts[1..], sep)
  }

  lemma {:induction false} WordsOfJoin(ws: seq<string>)
    requires forall w :: w in ws ==> w != "" && SpaceFree(w)
    ensures Words(Join(ws, " ")) == ws
  {
    if ws != [] {
      var w, rest := ws[0], ws[1..];
      assert w in ws && ws == [w] + rest;
      assert forall v :: v in rest ==> v in ws;
      WordsOfJoin(rest);
      if rest == [] {
        WordThenRest(w, "");
        assert Join(ws, " ") == w == w + "";
      } else {
        WordSpaceRest(w, Join(rest, " "));
        assert Join(ws, " ") == w + " " + Join(rest, " ");
      }
    }
  }

  lemma WordSpaceRest(w: string, rest: string)
    requires w != "" && SpaceFree(w)
    ensures Words(w + " " + rest) == [w] + Words(rest)
  {
    assert w + " " + rest == w + (" " + rest);
    WordThenRest(w, " " + rest);
    WordsSkipPad(" ", rest);
  }

  lemma WordsSkipPad(pad: string, s: string)
    requires Blank(pad)
    ensures Words(pad + s) == Words(s)
  {
    StripLeftOfPadded(pad, s);
  }

  lemma WordThenRest(w: string, rest: string)
    requires w != "" && SpaceFree(w) && (rest != "" ==> IsSpace(rest[0]))
    ensures Words(w + rest) == [w] + Words(rest)
  {
    var t := w + rest;
    assert StripLeft(t) == t;
    WordLengthOf(w, rest);
    assert t[..|w|] == w && t[|w|..] == rest;
  }

  lemma {:induction false} WordLengthOf(w: string, rest: string)
    requires SpaceFree(w) && (rest != "" ==> IsSpace(rest[0]))
    ensures WordLength(w + rest) == |w|
  {
    if w == "" {
      assert w + rest == rest;
    } else {
      assert (w + rest)[1..] == w[1..] + rest;
      WordLengthOf(w[1..], rest);
    }
  }

  /** str.split(sep) */
  function SplitOn(s: string, sep: char): (parts: seq<string>)
    ensures parts != []
  {
    if s == "" then [""]
    else
      var rest := SplitOn(s[1..], sep);
      if s[0] == sep then [""] + rest else [[s[0]] + rest[0]] + rest[1..]
  }

  lemma {:induction false} SplitOfPart(part: string, rest: string, sep: char)
    requires sep !in part
    ensures SplitOn(part + [sep] + rest, sep) == [part] + SplitOn(rest, sep)
    ensures SplitOn(part, sep) == [part]
  {
    var s := part + [sep] + rest;
    if part == "" {
      assert s[1..] == rest;
    } else {
      assert s[1..] == part[1..] + [sep] + rest;
      SplitOfPart(part[1..], rest, sep);
      assert part[0] in part && forall c :: c in part[1..] ==> c in part;
      assert [part[0]] + part[1..] == part;
    }
  }

  lemma {:induction false} SplitOfJoin(parts: seq<string>, sep: char)
    requires parts != [] && forall p :: p in parts ==> sep !in p
    ensures SplitOn(Join(parts, [sep]), sep) == parts
  {
    if |parts| == 1 {
      SplitOfPart(parts[0], "", sep);
    } else {
      assert Join(parts, [sep]) == parts[0] + [sep] + Join(parts[1..], [sep]);
      SplitOfPart(parts[0], Join(parts[1..], [sep]), sep);
      SplitOfJoin(parts[1..], sep);
    }
  }

  /** Splitting and joining again gives the text back. */
  lemma {:induction false} JoinOfSplit(s: string, sep: char)
    ensures Join(SplitOn(s, sep), [sep]) == s
  {
    if s != "" {
      var rest := SplitOn(s[1..], sep);
      JoinOfSplit(s[1..], sep);
      if s[0] == sep {
        assert ([""] + rest)[1..] == rest;
        assert Join([""] + rest, [sep]) == "" + [sep] + s[1..];
      } else {
        var first := [s[0]] + rest[0];
        assert ([first] + rest[1..])[1..] == rest[1..];
        assert s == [s[0]] + s[1..];
        if |rest| > 1 {
          assert Join([first] + rest[1..], [sep]) == [s[0]] + (rest[0] + [sep] + Join(rest[1..], [sep]));
        }
      }
    }
  }

  /** The parts that are not blank, stripped. */
  function Kept(parts: seq<string>): seq<string> {
    if parts == [] then []
    else (if Strip(parts[0]) != "" then [Strip(parts[0])] else []) + Kept(parts[1..])
  }

  /** [p.strip() for p in s.split(sep) if p.strip()] */
  function Parts(s: string, sep: char): seq<string> {
    Kept(SplitOn(s, sep))
  }

  lemma {:induction false} StripSplits(s: string) returns (left: string, right: string)
    ensures Blank(left) && Blank(right) && s == left + Strip(s) + right
  {
    left := StripLeftPart(s);
    right := StripRightPart(StripLeft(s));
  }

  lemma BlankJoin(a: string, b: string)
    requires Blank(a) && Blank(b)
    ensures Blank(a + b)
  {
  }

  lemma FrontMoves(s: string, a: string, b: string)
    requires s != "" && s[1..] == a + b
    ensures s == [s[0]] + a + b
  {
    assert s == [s[0]] + s[1..];
  }

  lemma {:induction false} StripLeftPart(s: string) returns (pad: string)
    ensures Blank(pad) && s == pad + StripLeft(s)
  {
    if s != "" && IsSpace(s[0]) {
      var rest := StripLeftPart(s[1..]);
      pad := [s[0]] + rest;
      BlankJoin([s[0]], rest);
      FrontMoves(s, rest, StripLeft(s[1..]));
    } else {
      pad := "";
    }
  }

  lemma {:induction false} StripRightPart(s: string) returns (pad: string)
    ensures Blank(pad) && s == StripRight(s) + pad
  {
    if s != "" && IsSpace(s[|s| - 1]) {
      pad := StripRightPart(s[..|s| - 1]);
      pad := pad + [s[|s| - 1]];
    } else {
      pad := "";
    }
  }

  /** White space around text does not change what strip() leaves. */
  lemma StripIgnoresPadding(left: string, s: string, right: string)
    requires Blank(left) && Blank(right)
    ensures Strip(left + s + right) == Strip(s)
  {
    var l, r := StripSplits(s);
    assert left + s + right == (left + l) + Strip(s) + (r + right);
    StripOfPadded(left + l, Strip(s), r + right);
  }

  lemma {:induction false} SplitWithFrontPad(pad: string, s: string, sep: char)
    requires Blank(pad) && !IsSpace(sep)
    ensures SplitOn(pad + s, sep) == [pad + SplitOn(s, sep)[0]] + SplitOn(s, sep)[1..]
  {
    if pad == "" {
      assert pad + s == s && pad + SplitOn(s, sep)[0] == SplitOn(s, sep)[0];
    } else {
      assert (pad + s)[1..] == pad[1..] + s;
      SplitWithFrontPad(pad[1..], s, sep);
      assert pad[0] != sep && [pad[0]] + (pad[1..] + SplitOn(s, sep)[0]) == pad + SplitOn(s, sep)[0];
    }
  }

  lemma SplitCons(c: char, rest: string, sep: char)
    ensures SplitOn([c] + rest, sep) ==
            if c == sep then [""] + SplitOn(rest, sep) else [[c] + SplitOn(rest, sep)[0]] + SplitOn(rest, sep)[1..]
  {
    assert ([c] + rest)[1..] == rest;
  }

  /** The parts with some text put behind the last one. */
  function PadLast(parts: seq<string>, pad: string): seq<string>
    requires parts != []
  {
    parts[..|parts| - 1] + [parts[|parts| - 1] + pad]
  }

  lemma PadLastCons(first: string, rest: seq<string>, pad: string)
    requires rest != []
    ensures PadLast([first] + rest, pad) == [first] + PadLast(rest, pad)
  {
  }

  /** Putting a character before the first part and a text behind the last part commute. */
  lemma GrowFront(c: char, rest: seq<string>, pad: string)
    requires rest != []
    ensures PadLast([[c] + rest[0]] + rest[1..], pad) == [[c] + PadLast(rest, pad)[0]] + PadLast(rest, pad)[1..]
  {
    if |rest| == 1 {
      assert [c] + (rest[0] + pad) == [c] + rest[0] + pad;
    } else {
      PadLastCons([c] + rest[0], rest[1..], pad);
      PadLastCons(rest[0], rest[1..], pad);
      assert rest == [rest[0]] + rest[1..];
    }
  }

  /** Text without a separator goes behind the last part. */
  lemma {:induction false} SplitWithBackPad(s: string, pad: string, sep: char)
    requires sep !in pad
    ensures SplitOn(s + pad, sep) == PadLast(SplitOn(s, sep), pad)
  {
    if s == "" {
      SplitOfPart(pad, "", sep);
      assert s + pad == pad && "" + pad == pad;
    } else {
      var rest := SplitOn(s[1..], sep);
      assert s == [s[0]] + s[1..] && s + pad == [s[0]] + (s[1..] + pad);
      SplitCons(s[0], s[1..], sep);
      SplitCons(s[0], s[1..] + pad, sep);
      SplitWithBackPad(s[1..], pad, sep);
      if s[0] == sep {
        PadLastCons("", rest, pad);
      } else {
        GrowFront(s[0], rest, pad);
      }
    }
  }

  lemma {:induction false} KeptConcat(a: seq<string>, b: seq<string>)
    ensures Kept(a + b) == Kept(a) + Kept(b)
  {
    if a == [] {
      assert a + b == b;
    } else {
      assert (a + b)[1..] == a[1..] + b && (a + b)[0] == a[0];
      KeptConcat(a[1..], b);
      var front := if Strip(a[0]) != "" then [Strip(a[0])] else [];
      assert front + Kept(a[1..]) + Kept(b) == front + (Kept(a[1..]) + Kept(b));
    }
  }

  lemma PartsIgnoreFrontPad(pad: string, s: string, sep: char)
    requires Blank(pad) && !IsSpace(sep)
    ensures Parts(pad + s, sep) == Parts(s, sep)
  {
    var parts := SplitOn(s, sep);
    SplitWithFrontPad(pad, s, sep);
    StripIgnoresPadding(pad, parts[0], "");
    assert pad + parts[0] + "" == pad + parts[0];
    assert ([pad + parts[0]] + parts[1..])[1..] == parts[1..];
  }

  /** White space behind the last part changes nothing once the parts are stripped. */
  lemma LastPartPadded(front: seq<string>, last: string, pad: string)
    requires Blank(pad)
    ensures Kept(front + [last + pad]) == Kept(front + [last])
  {
    KeptConcat(front, [last]);
    KeptConcat(front, [last + pad]);
    StripIgnoresPadding("", last, pad);
    assert "" + last + pad == last + pad;
    assert [last][1..] == [] && [last + pad][1..] == [];
  }

  lemma PartsIgnoreBackPad(s: string, pad: string, sep: char)
    requires Blank(pad) && !IsSpace(sep)
    ensures Parts(s + pad, sep) == Parts(s, sep)
  {
    var parts, n := SplitOn(s, sep), |SplitOn(s, sep)| - 1;
    assert sep !in pad;
    SplitWithBackPad(s, pad, sep);
    LastPartPadded(parts[..n], parts[n], pad);
    assert parts == parts[..n] + [parts[n]];
  }

  /** White space around a text does not change its stripped parts. */
  lemma PartsOfStripped(s: string, sep: char)
    requires !IsSpace(sep)
    ensures Parts(Strip(s), sep) == Parts(s, sep)
  {
    var l, r := StripSplits(s);
    PartsIgnoreFrontPad(l, Strip(s), sep);
    PartsIgnoreBackPad(l + Strip(s), r, sep);
  }

  lemma {:induction false} SplitLacksSeparator(s: string, sep: char)
    ensures forall p :: p in SplitOn(s, sep) ==> sep !in p
  {
    if s != "" {
      SplitLacksSeparator(s[1..], sep);
      var rest := SplitOn(s[1..], sep);
      assert rest[0] in rest && forall p :: p in rest[1..] ==> p in rest;
    }
  }

  lemma {:induction false} KeptLacksSeparator(parts: seq<string>, sep: char)
    requires forall p :: p in parts ==> sep !in p
    ensures forall p :: p in Kept(parts) ==> sep !in p
  {
    if parts != [] {
      assert parts[0] in parts;
      var l, r := StripSplits(parts[0]);
      assert forall c :: c in Strip(parts[0]) ==> c in l + Strip(parts[0]) + r;
      KeptLacksSeparator(parts[1..], sep);
    }
  }

  /** No part holds the separator. */
  lemma PartsLackSeparator(s: string, sep: char)
    ensures forall p :: p in Parts(s, sep) ==> sep !in p
  {
    SplitLacksSeparator(s, sep);
    KeptLacksSeparator(SplitOn(s, sep), sep);
  }

  /** Joined parts are found again, stripped and without the blank ones. */
  lemma PartsOfJoin(parts: seq<string>, sep: char)
    requires forall p :: p in parts ==> sep !in p
    ensures Parts(Join(parts, [sep]), sep) == Kept(parts)
  {
    if parts == [] {
      assert SplitOn("", sep) == [""] && [""][1..] == [];
    } else {
      SplitOfJoin(parts, sep);
    }
  }

  function LowerChar(c: char): char {
    if 'A' <= c <= 'Z' then c - 'A' + 'a' else c
  }

  /** str.lower() */
  function Lower(s: string): (r: string)
    ensures |r| == |s|
    ensures forall i :: 0 <= i < |s| ==> r[i] == LowerChar(s[i])
  {
    seq(|s|, i requires 0 <= i < |s| => LowerChar(s[i]))
  }

  /** part in s */
  predicate Contains(s: string, part: string) {
    exists i :: 0 <= i <= |s| && part <= s[i..]
  }
}
