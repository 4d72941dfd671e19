/** The guild allowlist of src/config/settings.py, on ASCII digits and white space. */
module Allowlist {
  import opened Wrappers
  import opened Text

  // ---------------------------------------------------------------- int()

  predicate IsDigit(c: char) { '0' <= c <= '9' }

  /** Digits with single underscores between them; ready says that a digit came last. */
  function Digits(s: string, acc: nat, ready: bool): Option<nat> {
    if s == "" then (if ready then Some(acc) else None)
    else if IsDigit(s[0]) then Digits(s[1..], 10 * acc + (s[0] as int - '0' as int), true)
    else if s[0] == '_' && ready then Digits(s[1..], acc, false)
    else None
  }

  /** int(text); None is the ValueError. */
  function ParseInt(text: string): Option<int> {
    var s := Strip(text);
    if s == "" then None
    else if s[0] == '-' then
      var n: Option<int> := Digits(s[1..], 0, false);
      if n.Some? then Some(-n.value) else None
    else if s[0] == '+' then
      var n: Option<int> := Digits(s[1..], 0, false);
      if n.Some? then Some(n.value) else None
    else
      var n: Option<int> := Digits(s, 0, false);
      if n.Some? then Some(n.value) else None
  }

  function PrintNat(n: nat): (s: string)
    ensures s != "" && forall c :: c in s ==> IsDigit(c)
  {
    if n < 10 then [('0' as int + n) as char] else PrintNat(n / 10) + [('0' as int + n % 10) as char]
  }

  /** str(n) */
  function PrintInt(n: int): (s: string)
    ensures s != "" && forall c :: c in s ==> IsDigit(c) || c == '-'
  {
    if n < 0 then "-" + PrintNat(-n) else PrintNat(n)
  }

  lemma {:induction false} DigitsOfPrint(n: nat, rest: string)
    ensures Digits(PrintNat(n) + rest, 0, false) == Digits(rest, n, true)
  {
    var d := [('0' as int + n % 10) as char];
    if n < 10 {
      assert (PrintNat(n) + rest)[1..] == rest;
    } else {
      DigitsOfPrint(n / 10, d + rest);
      assert PrintNat(n) + rest == PrintNat(n / 10) + (d + rest);
      assert (d + rest)[1..] == rest;
    }
  }

  lemma PrintedIsTrimmed(n: int)
    ensures Trimmed(PrintInt(n)) && ',' !in PrintInt(n) && !Blank(PrintInt(n))
  {
    var s := PrintInt(n);
    assert s[0] in s && s[|s| - 1] in s;
  }

  lemma ParsePrinted(n: int)
    ensures ParseInt(PrintInt(n)) == Some(n)
  {
    if n < 0 {
      DigitsOfPrinted(-n);
      ParseNegative(PrintNat(-n), -n);
    } else {
      DigitsOfPrinted(n);
      PrintedFront(n);
      ParseDigits(PrintNat(n), n);
    }
  }

  lemma DigitsAreTrimmed(s: string)
    requires s != "" && forall c :: c in s ==> IsDigit(c) || c == '-'
    ensures Strip(s) == s
  {
    assert s[0] in s && s[|s| - 1] in s;
    StripOfPadded("", s, "");
    assert "" + s + "" == s;
  }

  lemma ParseNegative(s: string, n: int)
    requires s != "" && (forall c :: c in s ==> IsDigit(c)) && n >= 0 && Digits(s, 0, false) == Some(n)
    ensures ParseInt("-" + s) == Some(-n)
  {
    DigitsAreTrimmed("-" + s);
    assert ("-" + s)[1..] == s;
  }

  lemma ParseDigits(s: string, n: nat)
    requires s != "" && IsDigit(s[0]) && (forall c :: c in s ==> IsDigit(c)) && Digits(s, 0, false) == Some(n)
    ensures ParseInt(s) == Some(n)
  {
    DigitsAreTrimmed(s);
  }

  lemma DigitsOfPrinted(n: nat)
    ensures Digits(PrintNat(n), 0, false) == Some(n)
  {
    DigitsOfPrint(n, "");
    assert PrintNat(n) + "" == PrintNat(n);
  }

  lemma PrintedFront(n: nat)
    ensures IsDigit(PrintNat(n)[0])
  {
    assert PrintNat(n)[0] in PrintNat(n);
  }

  /** A plus sign before the digits changes nothing. */
  lemma PlusIsIgnored(n: nat)
    ensures ParseInt("+" + PrintNat(n)) == Some(n)
  {
    var s := "+" + PrintNat(n);
    DigitsOfPrinted(n);
    assert s[|s| - 1] in PrintNat(n) && s[1..] == PrintNat(n);
    StripOfPadded("", s, "");
    assert "" + s + "" == s;
  }

  lemma {:induction false} DigitsAreDigits(s: string, acc: nat, ready: bool)
    requires Digits(s, acc, ready).Some?
    ensures forall c :: c in s ==> IsDigit(c) || c == '_'
    ensures s != "" ==> IsDigit(s[|s| - 1])
    ensures !ready ==> s != "" && IsDigit(s[0])
  {
    if s != "" {
      DigitsAreDigits(s[1..], if IsDigit(s[0]) then 10 * acc + (s[0] as int - '0' as int) else acc, IsDigit(s[0]));
    }
  }

  /** What is read as an integer is, but for white space around it, a sign, digits, and underscores between them. */
  lemma ParsedIsNumber(text: string)
    requires ParseInt(text).Some?
    ensures
      var s := Strip(text);
      && s != "" && IsDigit(s[|s| - 1]) && (IsDigit(s[0]) || s[0] == '-' || s[0] == '+')
      && forall i :: 0 < i < |s| ==> IsDigit(s[i]) || s[i] == '_'
  {
    var s := Strip(text);
    if s[0] == '-' || s[0] == '+' {
      DigitsAreDigits(s[1..], 0, false);
      assert forall i :: 0 < i < |s| ==> s[i] == s[1..][i - 1];
    } else {
      DigitsAreDigits(s, 0, false);
    }
  }

  // ---------------------------------------------------------------- guild_allowlist

  function ParseAll(parts: seq<string>): Option<seq<int>> {
    if parts == [] then Some([])
    else
      var first, rest := ParseInt(parts[0]), ParseAll(parts[1..]);
      if first.Some? && rest.Some? then Some([first.value] + rest.value) else None
  }

  function ParseItems(s: string): Option<seq<int>> {
    ParseAll(Parts(s, ','))
  }

  predicate Bracketed(s: string) {
    |s| >= 2 && s[0] == '[' && s[|s| - 1] == ']'
  }

  /** None is the ValueError of the last line. */
  function GuildAllowlist(raw: string): Option<seq<int>> {
    var s := Strip(raw);
    if s == "" then Some([])
    else if Bracketed(s) && ParseItems(s[1..|s| - 1]).Some? then ParseItems(s[1..|s| - 1])
    else ParseItems(s)
  }

  /** Text in brackets that fails as a bracketed list fails: the fallback never rescues it. */
  lemma BracketFailureIsFinal(raw: string)
    requires Bracketed(Strip(raw))
    ensures GuildAllowlist(raw) == ParseItems(Strip(raw)[1..|Strip(raw)| - 1])
  {
    var s := Strip(raw);
    var parts := SplitOn(s, ',');
    assert parts[0] != "" && parts[0][0] == '[';
    StripKeepsFront(parts[0]);
    assert Parts(s, ',')[0] == Strip(parts[0]);
    StripTwice(parts[0]);
    assert ParseInt(Parts(s, ',')[0]) == None;
  }

  lemma {:induction false} AllParseExactly(parts: seq<string>)
    ensures ParseAll(parts).Some? <==> forall p :: p in parts ==> ParseInt(p).Some?
    ensures ParseAll(parts).Some? ==>
              |ParseAll(parts).value| == |parts| && forall i :: 0 <= i < |parts| ==>
                ParseInt(parts[i]) == Some(ParseAll(parts).value[i])
  {
    if parts != [] {
      assert forall p :: p in parts <==> p == parts[0] || p in parts[1..];
      AllParseExactly(parts[1..]);
    }
  }

  /** The list that the text is read as: its inside when it is bracketed. */
  function Items(raw: string): seq<string> {
    var s := Strip(raw);
    Parts(if Bracketed(s) then s[1..|s| - 1] else s, ',')
  }

  /** Reading fails exactly when some non-blank item is no integer, and otherwise gives each item's integer in order. */
  lemma AllowlistFailsExactly(raw: string)
    ensures GuildAllowlist(raw) == None <==> exists item :: item in Items(raw) && ParseInt(item) == None
    ensures GuildAllowlist(raw).Some? ==>
              && |GuildAllowlist(raw).value| == |Items(raw)|
              && forall i :: 0 <= i < |Items(raw)| ==> ParseInt(Items(raw)[i]) == Some(GuildAllowlist(raw).value[i])
  {
    AllParseExactly(Items(raw));
    if Bracketed(Strip(raw)) {
      BracketFailureIsFinal(raw);
    } else if Strip(raw) == "" {
      BlankHasNoItems();
    }
  }

  lemma StripKeepsFront(s: string)
    requires s != "" && !IsSpace(s[0])
    ensures Strip(s) != "" && Strip(s)[0] == s[0]
  {
    StripRightKeepsFront(s);
  }

  lemma {:induction false} StripRightKeepsFront(s: string)
    requires s != "" && !IsSpace(s[0])
    ensures StripRight(s) != "" && StripRight(s)[0] == s[0]
  {
    if IsSpace(s[|s| - 1]) {
      StripRightKeepsFront(s[..|s| - 1]);
    }
  }

  lemma StripTwice(s: string)
    ensures Strip(Strip(s)) == Strip(s)
  {
    StripOfPadded("", Strip(s), "");
    assert "" + Strip(s) + "" == Strip(s);
  }

  // ---------------------------------------------------------------- round trip

  /** One item between commas: a padded number, or only white space. */
  datatype Piece = Piece(left: string, number: Option<int>, right: string) {
    predicate Valid() { Blank(left) && Blank(right) }

    function Text(): string {
      left + (if number.Some? then PrintInt(number.value) else "") + right
    }
  }

  function Texts(pieces: seq<Piece>): seq<string> {
    if pieces == [] then [] else [pieces[0].Text()] + Texts(pieces[1..])
  }

  function Numbers(pieces: seq<Piece>): seq<int> {
    if pieces == [] then []
    else (if pieces[0].number.Some? then [pieces[0].number.value] else []) + Numbers(pieces[1..])
  }

  function Render(pieces: seq<Piece>): string {
    Join(Texts(pieces), ",")
  }

  lemma PieceFacts(p: Piece)
    requires p.Valid()
    ensures ',' !in p.Text() && '[' !in p.Text()
    ensures Strip(p.Text()) == if p.number.Some? then PrintInt(p.number.value) else ""
  {
    if p.number.Some? {
      PrintedIsTrimmed(p.number.value);
      StripOfPadded(p.left, PrintInt(p.number.value), p.right);
    } else {
      StripOfPadded(p.left, "", p.right);
    }
  }

  lemma {:induction false} TextsFacts(pieces: seq<Piece>)
    requires forall p :: p in pieces ==> p.Valid()
    ensures |Texts(pieces)| == |pieces| && (forall t :: t in Texts(pieces) ==> ',' !in t && '[' !in t)
  {
    if pieces != [] {
      assert pieces[0] in pieces;
      PieceFacts(pieces[0]);
      TextsFacts(pieces[1..]);
    }
  }

  lemma {:induction false} PiecesParse(pieces: seq<Piece>)
    requires forall p :: p in pieces ==> p.Valid()
    ensures ParseAll(Kept(Texts(pieces))) == Some(Numbers(pieces))
  {
    if pieces != [] {
      var p, rest := pieces[0], pieces[1..];
      assert p in pieces;
      PieceFacts(p);
      PiecesParse(rest);
      assert ([p.Text()] + Texts(rest))[1..] == Texts(rest);
      if p.number.Some? {
        ParsePrinted(p.number.value);
        assert ([PrintInt(p.number.value)] + Kept(Texts(rest)))[1..] == Kept(Texts(rest));
      } else {
        assert [] + Kept(Texts(rest)) == Kept(Texts(rest)) && [] + Numbers(rest) == Numbers(rest);
      }
    }
  }

  lemma {:induction false} NoBracketInJoin(texts: seq<string>)
    requires forall t :: t in texts ==> '[' !in t
    ensures '[' !in Join(texts, ",")
  {
    if texts != [] {
      assert texts[0] in texts;
      if |texts| > 1 {
        NoBracketInJoin(texts[1..]);
      }
    }
  }

  lemma BracketedIsReadBack(pieces: seq<Piece>, raw: string)
    requires forall p :: p in pieces ==> p.Valid()
    requires Strip(raw) == "[" + Render(pieces) + "]"
    ensures GuildAllowlist(raw) == Some(Numbers(pieces))
  {
    InnerParses(pieces);
    var s := Strip(raw);
    assert s[1..|s| - 1] == Render(pieces);
  }

  lemma PlainIsReadBack(pieces: seq<Piece>, raw: string)
    requires forall p :: p in pieces ==> p.Valid()
    requires Strip(raw) == Strip(Render(pieces))
    ensures GuildAllowlist(raw) == Some(Numbers(pieces))
  {
    InnerParses(pieces);
    TextsFacts(pieces);
    NoBracketInJoin(Texts(pieces));
    FrontNotBracket(Render(pieces));
    PartsOfStripped(Render(pieces), ',');
    BlankHasNoItems();
  }

  /**
    Integers printed with commas, with any padding, blank items, and white space around, in
    brackets or not, are read back as they are.
   */
  lemma PrintedListIsReadBack(pieces: seq<Piece>, bracketed: bool, left: string, right: string)
    requires Blank(left) && Blank(right) && forall p :: p in pieces ==> p.Valid()
    ensures GuildAllowlist(left + (if bracketed then "[" + Render(pieces) + "]" else Render(pieces)) + right)
         == Some(Numbers(pieces))
  {
    if bracketed {
      StripOfPadded(left, "[" + Render(pieces) + "]", right);
      BracketedIsReadBack(pieces, left + ("[" + Render(pieces) + "]") + right);
    } else {
      StripIgnoresPadding(left, Render(pieces), right);
      PlainIsReadBack(pieces, left + Render(pieces) + right);
    }
  }

  lemma FrontNotBracket(s: string)
    requires '[' !in s
    ensures !Bracketed(Strip(s))
  {
    var l, r := StripSplits(s);
    assert Strip(s) != "" ==> Strip(s)[0] == s[|l|];
  }

  lemma BlankHasNoItems()
    ensures ParseItems("") == Some([])
  {
    assert SplitOn("", ',') == [""] && [""][1..] == [];
    assert Parts("", ',') == [];
  }

  lemma InnerParses(pieces: seq<Piece>)
    requires forall p :: p in pieces ==> p.Valid()
    ensures ParseItems(Render(pieces)) == Some(Numbers(pieces))
  {
    PiecesParse(pieces);
    TextsFacts(pieces);
    PartsOfJoin(Texts(pieces), ',');
  }
}
