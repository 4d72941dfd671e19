/** Splitting of multi-statement queries in `_PatchedConnection.execute` of src/db/pool.py. */
module StatementSplit {
  import opened Wrappers
  import opened Text

  /** What the driver does with one statement; Fails stands for its exception. */
  datatype Reply = Status(text: string) | Fails

  /** The answer to each statement of one execute call may depend on its place, and so on all that went before. */
  type Driver = (nat, string) -> Reply

  /** The statements that reached the driver, and the status returned unless one of them raised. */
  datatype Execution = Execution(sent: seq<string>, status: Option<string>)

  /** `n` statements have been sent before. */
  function RunAll(statements: seq<string>, driver: Driver, n: nat, status: string): Execution
    decreases |statements|
  {
    if statements == [] then Execution([], Some(status))
    else
      match driver(n, statements[0])
      case Fails => Execution([statements[0]], None)
      case Status(s) =>
        var rest := RunAll(statements[1..], driver, n + 1, s);
        Execution([statements[0]] + rest.sent, rest.status)
  }

  predicate Splits(query: string) {
    ';' in Strip(query) && '$' in Strip(query)
  }

  function Executed(query: string, driver: Driver): Execution {
    if Splits(query) then RunAll(Parts(Strip(query), ';'), driver, 0, "") else RunAll([query], driver, 0, "")
  }

  lemma RunOne(statement: string, driver: Driver)
    ensures RunAll([statement], driver, 0, "") ==
            Execution([statement], match driver(0, statement) case Status(s) => Some(s) case Fails => None)
  {
    assert [statement][1..] == [];
    match driver(0, statement)
    case Fails =>
    case Status(s) => assert RunAll([], driver, 1, s) == Execution([], Some(s));
  }

  /**
    A query whose stripped text lacks a semicolon or a dollar sign is sent once, as it came; of
    any other the stripped parts that are not blank are sent, in order, up to the first failure.
   */
  lemma ExecutedExactly(query: string, driver: Driver)
    ensures
      var e, parts := Executed(query, driver), Parts(Strip(query), ';');
      if ';' in Strip(query) && '$' in Strip(query) then SentFront(e, parts, driver)
      else e.sent == [query] && e.status == (if driver(0, query).Fails? then None else Some(driver(0, query).text))
  {
    RunOne(query, driver);
    var m := RunStopsAtFailure(Parts(Strip(query), ';'), driver);
  }

  /** All parts were sent and the last one's status came back, or the front up to a part that failed. */
  predicate SentFront(e: Execution, parts: seq<string>, driver: Driver) {
    var n := |e.sent|;
    && e.sent <= parts
    && (forall i :: 0 <= i < n - 1 ==> driver(i, parts[i]).Status?)
    && (if n > 0 && driver(n - 1, parts[n - 1]).Fails? then e.status == None
        else n == |parts| && e.status == Some(if n == 0 then "" else driver(n - 1, parts[n - 1]).text))
  }

  method Execute(query: string, driver: Driver) returns (e: Execution)
    ensures e == Executed(query, driver)
    ensures !(';' in Strip(query) && '$' in Strip(query)) ==>
              e.sent == [query] && e.status == (if driver(0, query).Fails? then None else Some(driver(0, query).text))
    ensures ';' in Strip(query) && '$' in Strip(query) ==> SentFront(e, Parts(Strip(query), ';'), driver)
  {
    ExecutedExactly(query, driver);
    var q := Strip(query);
    if !(';' in q && '$' in q) {
      var reply := driver(0, query);
      RunOne(query, driver);
      return Execution([query], if reply.Status? then Some(reply.text) else None);
    }
    e := ExecuteEach(Parts(q, ';'), driver);
  }

  method ExecuteEach(statements: seq<string>, driver: Driver) returns (e: Execution)
    ensures e == RunAll(statements, driver, 0, "")
  {
    var sent, status := [], "";
    var i := 0;
    while i < |statements|
      invariant 0 <= i <= |statements|
      invariant RunAll(statements, driver, 0, "") == After(sent, RunAll(statements[i..], driver, i, status))
    {
      var reply := driver(i, statements[i]);
      assert statements[i..][1..] == statements[i + 1..];
      if reply.Fails? {
        return Execution(sent + [statements[i]], None);
      }
      ghost var rest := RunAll(statements[i + 1..], driver, i + 1, reply.text);
      assert sent + ([statements[i]] + rest.sent) == sent + [statements[i]] + rest.sent;
      sent := sent + [statements[i]];
      status := reply.text;
      i := i + 1;
    }
    assert statements[i..] == [] && sent + [] == sent;
    return Execution(sent, Some(status));
  }

  function After(sent: seq<string>, e: Execution): Execution {
    Execution(sent + e.sent, e.status)
  }

  /** A statement with white space around it. */
  datatype Padded = Padded(left: string, statement: string, right: string) {
    predicate Valid() {
      Blank(left) && Blank(right) && statement != "" && Trimmed(statement)
    }

    function Text(): string { left + statement + right }
  }

  function Texts(ps: seq<Padded>): seq<string> {
    if ps == [] then [] else [ps[0].Text()] + Texts(ps[1..])
  }

  function Statements(ps: seq<Padded>): seq<string> {
    if ps == [] then [] else [ps[0].statement] + Statements(ps[1..])
  }

  /** No statement has a semicolon in it, in a literal for one. */
  predicate Clean(ps: seq<Padded>) {
    forall p :: p in ps ==> ';' !in p.statement
  }

  lemma TextOfOne(p: Padded)
    requires p.Valid()
    ensures Strip(p.Text()) == p.statement != "" && (';' in p.Text() <==> ';' in p.statement)
  {
    StripOfPadded(p.left, p.statement, p.right);
    assert forall c :: c in p.Text() <==> c in p.left || c in p.statement || c in p.right;
  }

  lemma {:induction false} TextsKept(ps: seq<Padded>)
    requires forall p :: p in ps ==> p.Valid()
    ensures Kept(Texts(ps)) == Statements(ps)
    ensures Clean(ps) ==> forall t :: t in Texts(ps) ==> ';' !in t
    ensures Clean(ps) <==> forall s :: s in Statements(ps) ==> ';' !in s
  {
    if ps != [] {
      TextOfOne(ps[0]);
      TextsKept(ps[1..]);
      assert Clean(ps) <==> ';' !in ps[0].statement && Clean(ps[1..]);
    }
  }

  /** From the k-th statement on, m is the first that fails. */
  lemma {:induction false} FirstFailure(all: seq<string>, driver: Driver, k: nat, status: string) returns (m: nat)
    requires k <= |all|
    ensures k <= m <= |all| && forall i :: k <= i < m ==> driver(i, all[i]).Status?
    ensures
      var e := RunAll(all[k..], driver, k, status);
      if m < |all| then driver(m, all[m]).Fails? && e == Execution(all[k..m + 1], None)
      else e == Execution(all[k..], Some(if k < |all| then driver(|all| - 1, all[|all| - 1]).text else status))
    decreases |all| - k
  {
    if k == |all| || driver(k, all[k]).Fails? {
      m := k;
    } else {
      assert all[k..][1..] == all[k + 1..];
      m := FirstFailure(all, driver, k + 1, driver(k, all[k]).text);
      assert m < |all| ==> [all[k]] + all[k + 1..m + 1] == all[k..m + 1];
      assert [all[k]] + all[k + 1..] == all[k..];
    }
  }

  /** Sent are the statements up to and including the first that fails, m; if none does, the last status comes back. */
  lemma RunStopsAtFailure(statements: seq<string>, driver: Driver) returns (m: nat)
    ensures m <= |statements| && forall i :: 0 <= i < m ==> driver(i, statements[i]).Status?
    ensures m < |statements| ==> driver(m, statements[m]).Fails?
    ensures RunAll(statements, driver, 0, "") ==
            if m < |statements| then Execution(statements[..m + 1], None)
            else Execution(statements, Some(if m == 0 then "" else driver(m - 1, statements[m - 1]).text))
  {
    assert statements[0..] == statements;
    m := FirstFailure(statements, driver, 0, "");
    assert m < |statements| ==> statements[0..m + 1] == statements[..m + 1];
  }

  /**
    Statements joined with semicolons, padded in any way, reach the driver as they are exactly
    when none has a semicolon in it and none but the last fails; without such semicolons what
    reaches the driver is in any case their front, and all succeed exactly when no one fails.
   */
  lemma JoinedStatementsRunInOrder(ps: seq<Padded>, driver: Driver)
    requires forall p :: p in ps ==> p.Valid()
    requires Splits(Join(Texts(ps), ";"))
    ensures
      var e, statements := Executed(Join(Texts(ps), ";"), driver), Statements(ps);
      && (e.sent == statements <==>
            Clean(ps) && forall i :: 0 <= i < |statements| - 1 ==> driver(i, statements[i]).Status?)
      && (Clean(ps) ==>
            && e.sent <= statements
            && (e.status.Some? <==> forall i :: 0 <= i < |statements| ==> driver(i, statements[i]).Status?))
  {
    var query, statements := Join(Texts(ps), ";"), Statements(ps);
    TextsKept(ps);
    SentLacksSemicolon(query, driver);
    if Clean(ps) {
      CleanParts(ps);
      SentExactly(statements, driver);
      var m := RunStopsAtFailure(statements, driver);
    }
  }

  lemma CleanParts(ps: seq<Padded>)
    requires forall p :: p in ps ==> p.Valid()
    requires Clean(ps)
    ensures Parts(Strip(Join(Texts(ps), ";")), ';') == Statements(ps)
  {
    TextsKept(ps);
    PartsOfStripped(Join(Texts(ps), ";"), ';');
    PartsOfJoin(Texts(ps), ';');
  }

  /** A query that is split never sends a semicolon. */
  lemma SentLacksSemicolon(query: string, driver: Driver)
    requires Splits(query)
    ensures forall s :: s in Executed(query, driver).sent ==> ';' !in s
  {
    var parts := Parts(Strip(query), ';');
    PartsLackSeparator(Strip(query), ';');
    var m := RunStopsAtFailure(parts, driver);
  }

  /** All statements are sent exactly when none but the last fails. */
  lemma SentExactly(statements: seq<string>, driver: Driver)
    ensures RunAll(statements, driver, 0, "").sent == statements <==>
            forall i :: 0 <= i < |statements| - 1 ==> driver(i, statements[i]).Status?
  {
    var m := RunStopsAtFailure(statements, driver);
    assert m < |statements| ==> |statements[..m + 1]| == m + 1;
  }

  /** A query is cut at its one semicolon, wherever that stands. */
  lemma CutInTwo(left: string, right: string, driver: Driver)
    requires left != "" && Trimmed(left) && ';' !in left && right != "" && Trimmed(right) && ';' !in right
    requires '$' in left && driver(0, left).Status?
    ensures Executed(left + ";" + right, driver).sent == [left, right]
  {
    TwoAreSplit(left, right);
    PartsOfTwo(left, right);
    assert Executed(left + ";" + right, driver) == RunAll([left, right], driver, 0, "");
    SentExactly([left, right], driver);
  }

  lemma TwoAreSplit(left: string, right: string)
    requires left != "" && Trimmed(left) && right != "" && Trimmed(right) && '$' in left
    ensures Strip(left + ";" + right) == left + ";" + right && Splits(left + ";" + right)
  {
    var query := left + ";" + right;
    StripOfPadded("", query, "");
    assert "" + query + "" == query && query[|left|] == ';';
    assert forall c :: c in left ==> c in query;
  }

  lemma PartsOfTwo(left: string, right: string)
    requires left != "" && Trimmed(left) && ';' !in left && right != "" && Trimmed(right) && ';' !in right
    ensures Parts(left + ";" + right, ';') == [left, right]
  {
    SplitOfPart(left, right, ';');
    SplitOfPart(right, "", ';');
    StripOfPadded("", left, "");
    StripOfPadded("", right, "");
    assert "" + left + "" == left && "" + right + "" == right;
    assert [left, right][1..] == [right] && [right][1..] == [];
    assert Kept([right]) == [right] + Kept([]) == [right];
  }

  /** A semicolon in a literal cuts the literal in two. */
  lemma LiteralIsCut(driver: Driver)
    requires forall n, s :: driver(n, s).Status?
    ensures Executed("SELECT $1, 'a;b'", driver).sent == ["SELECT $1, 'a", "b'"]
  {
    var left, right := "SELECT $1, 'a", "b'";
    assert left[7] == '$';
    assert left + ";" + right == "SELECT $1, 'a;b'";
    CutInTwo(left, right, driver);
  }
}
