/**
  Decorated calls, error counters and unwrapping: src/infra/result.py and `_unwrap_result` of
  src/bot/commands/council.py.
*/
module ResultLayer {
  import W = Wrappers
  import opened Sums

  /** What was raised: the names of its class and of the classes above it, and its text. */
  datatype Exc = Exc(classes: seq<string>, text: string) {
    /** `except Exception` catches it; a cancellation, for one, it lets through. */
    predicate Caught() { "Exception" in classes }
  }

  datatype Error = Error(kind: string, message: string, cause: W.Option<Exc>)

  datatype Value = Plain(n: int) | Ok(value: Value) | Err(error: Error)

  /** How a call ends. */
  datatype Outcome = Returns(v: Value) | Raises(exc: Exc) {
    predicate Errs() { Raises? && exc.Caught() }

    predicate Escapes() { Raises? && !exc.Caught() }
  }

  /** One use of the decorator. */
  datatype Layer = Layer(errorType: string, exceptionMap: seq<(string, string)>)

  const TOTAL := "__total__"

  // ---------------------------------------------------------------- counters

  function CountOf(counts: map<string, nat>, key: string): nat {
    if key in counts then counts[key] else 0
  }

  function Bump(counts: map<string, nat>, key: string): map<string, nat> {
    counts[key := CountOf(counts, key) + 1]
  }

  function Recorded(counts: map<string, nat>, kind: string): map<string, nat> {
    Bump(Bump(counts, kind), TOTAL)
  }

  class ErrorMetrics {
    var counters: map<string, nat>

    constructor ()
      ensures counters == map[]
    {
      counters := map[];
    }

    method RecordError(error: Error)
      modifies this
      ensures counters == Recorded(old(counters), error.kind)
    {
      counters := counters[error.kind := CountOf(counters, error.kind) + 1];
      counters := counters[TOTAL := CountOf(counters, TOTAL) + 1];
    }

    method Reset()
      modifies this
      ensures counters == map[]
    {
      counters := map[];
    }

    /** The body of the decorator's wrapper around a call that has ended. */
    method Wrapper(layer: Layer, outcome: Outcome) returns (result: Outcome)
      modifies this
      ensures (result, counters) == Wrap(layer, outcome, old(counters))
    {
      match outcome
      case Returns(v) =>
        if v.Ok? || v.Err? {
          return outcome;
        }
        return Returns(Ok(v));
      case Raises(exc) =>
        if !exc.Caught() {
          return outcome;
        }
        var kind := SelectErrorType(exc, layer.errorType, layer.exceptionMap);
        var error := Error(kind, exc.text, W.Some(exc));
        RecordError(error);
        return Returns(Err(error));
    }

    method SelectErrorType(exc: Exc, errorType: string, exceptionMap: seq<(string, string)>) returns (kind: string)
      ensures kind == Selected(exc, errorType, exceptionMap)
      ensures (forall j :: 0 <= j < |exceptionMap| ==> exceptionMap[j].0 !in exc.classes) ==> kind == errorType
      ensures forall i :: FirstMatch(exc, exceptionMap, i) ==> kind == exceptionMap[i].1
    {
      SelectedIsFirst(exc, errorType, exceptionMap);
      var i := 0;
      while i < |exceptionMap|
        invariant 0 <= i <= |exceptionMap|
        invariant Selected(exc, errorType, exceptionMap) == Selected(exc, errorType, exceptionMap[i..])
      {
        if exceptionMap[i].0 in exc.classes {
          return exceptionMap[i].1;
        }
        i := i + 1;
      }
      return errorType;
    }
  }

  /** The total is the sum of the counts of all kinds. */
  ghost predicate TotalIsSum(counts: map<string, nat>) {
    CountOf(counts, TOTAL) == Sum(counts - {TOTAL})
  }

  lemma RecordKeepsTotal(counts: map<string, nat>, kind: string)
    requires TotalIsSum(counts) && kind != TOTAL
    ensures TotalIsSum(Recorded(counts, kind))
  {
    var kinds := counts - {TOTAL};
    assert Recorded(counts, kind) - {TOTAL} == kinds[kind := CountOf(counts, kind) + 1];
    SumUpdate(kinds, kind, CountOf(counts, kind) + 1);
  }

  // ---------------------------------------------------------------- decorators

  /** The error type of the first entry the exception is an instance of, else the default. */
  function Selected(exc: Exc, errorType: string, exceptionMap: seq<(string, string)>): string {
    if exceptionMap == [] then errorType
    else if exceptionMap[0].0 in exc.classes then exceptionMap[0].1
    else Selected(exc, errorType, exceptionMap[1..])
  }

  /** The exception is an instance of the i-th entry's class and of none before. */
  predicate FirstMatch(exc: Exc, exceptionMap: seq<(string, string)>, i: int) {
    0 <= i < |exceptionMap| && exceptionMap[i].0 in exc.classes
    && forall j :: 0 <= j < i ==> exceptionMap[j].0 !in exc.classes
  }

  /** An exception becomes the error type of the first entry it is an instance of, or else the default. */
  lemma {:induction false} SelectedIsFirst(exc: Exc, errorType: string, exceptionMap: seq<(string, string)>)
    ensures (forall j :: 0 <= j < |exceptionMap| ==> exceptionMap[j].0 !in exc.classes) ==>
              Selected(exc, errorType, exceptionMap) == errorType
    ensures forall i :: FirstMatch(exc, exceptionMap, i) ==> Selected(exc, errorType, exceptionMap) == exceptionMap[i].1
  {
    if exceptionMap != [] {
      var rest := exceptionMap[1..];
      SelectedIsFirst(exc, errorType, rest);
      assert forall j :: 0 < j < |exceptionMap| ==> exceptionMap[j] == rest[j - 1];
      forall i | FirstMatch(exc, exceptionMap, i)
        ensures Selected(exc, errorType, exceptionMap) == exceptionMap[i].1
      {
        if i > 0 {
          assert FirstMatch(exc, rest, i - 1);
        }
      }
    }
  }

  function Wrap(layer: Layer, outcome: Outcome, counts: map<string, nat>): (Outcome, map<string, nat>) {
    match outcome
    case Returns(v) => (Returns(if v.Plain? then Ok(v) else v), counts)
    case Raises(exc) =>
      if !exc.Caught() then (outcome, counts)
      else
        var error := Error(Selected(exc, layer.errorType, layer.exceptionMap), exc.text, W.Some(exc));
        (Returns(Err(error)), Recorded(counts, error.kind))
  }

  /** A call through a stack of decorators, the innermost first. */
  function Call(layers: seq<Layer>, outcome: Outcome, counts: map<string, nat>): (Outcome, map<string, nat>)
    decreases |layers|
  {
    if layers == [] then (outcome, counts)
    else
      var (o, c) := Wrap(layers[0], outcome, counts);
      Call(layers[1..], o, c)
  }

  lemma {:induction false} ResultsPassThrough(layers: seq<Layer>, outcome: Outcome, counts: map<string, nat>)
    requires outcome.Escapes() || (outcome.Returns? && !outcome.v.Plain?)
    ensures Call(layers, outcome, counts) == (outcome, counts)
    decreases |layers|
  {
    if layers != [] {
      ResultsPassThrough(layers[1..], outcome, counts);
    }
  }

  /** A stack of decorators behaves as its innermost one, counts included. */
  lemma {:induction false} StackIsInnermost(layers: seq<Layer>, outcome: Outcome, counts: map<string, nat>)
    requires layers != []
    ensures Call(layers, outcome, counts) == Wrap(layers[0], outcome, counts)
  {
    var (o, c) := Wrap(layers[0], outcome, counts);
    ResultsPassThrough(layers[1..], o, c);
  }

  /** Through any stack a caught exception is counted once, in the total and under one kind; nothing else is counted. */
  lemma ExceptionsCountOnce(layers: seq<Layer>, outcome: Outcome, counts: map<string, nat>)
    requires layers != [] && TotalIsSum(counts)
    requires outcome.Errs() ==> Selected(outcome.exc, layers[0].errorType, layers[0].exceptionMap) != TOTAL
    ensures
      var counts' := Call(layers, outcome, counts).1;
      && TotalIsSum(counts')
      && CountOf(counts', TOTAL) == CountOf(counts, TOTAL) + (if outcome.Errs() then 1 else 0)
      && (!outcome.Errs() ==> counts' == counts)
  {
    StackIsInnermost(layers, outcome, counts);
    if outcome.Errs() {
      RecordKeepsTotal(counts, Selected(outcome.exc, layers[0].errorType, layers[0].exceptionMap));
    }
  }

  /**
    What is raised comes back as an error exactly if Exception is among its classes, and else goes
    through uncounted.
   */
  lemma OnlyExceptionsAreCaught(layers: seq<Layer>, exc: Exc, counts: map<string, nat>)
    requires layers != []
    ensures "Exception" in exc.classes ==>
              Call(layers, Raises(exc), counts).0.Returns? && Call(layers, Raises(exc), counts).0.v.Err?
    ensures "Exception" !in exc.classes ==> Call(layers, Raises(exc), counts) == (Raises(exc), counts)
  {
    StackIsInnermost(layers, Raises(exc), counts);
  }

  // ---------------------------------------------------------------- counters over a run

  datatype Event = Called(layers: seq<Layer>, outcome: Outcome) | Cleared {
    /** The call goes through at least one decorator, and no error class is named like the total. */
    predicate Valid() {
      Called? ==> layers != [] && Kind() != W.Some(TOTAL)
    }

    /** The kind of error the call is counted under, if it raised an exception that is caught. */
    function Kind(): W.Option<string> {
      if Called? && outcome.Errs() && layers != []
      then W.Some(Selected(outcome.exc, layers[0].errorType, layers[0].exceptionMap))
      else W.None
    }
  }

  /** The counters after any calls and resets. */
  function Replay(trace: seq<Event>): map<string, nat> {
    if trace == [] then map[]
    else
      var counts, e := Replay(trace[..|trace| - 1]), trace[|trace| - 1];
      if e.Cleared? then map[] else Call(e.layers, e.outcome, counts).1
  }

  /** The calls since the last reset that raised, all of them or those of one kind. */
  function RaisedSinceReset(trace: seq<Event>, kind: W.Option<string>): nat {
    if trace == [] || trace[|trace| - 1].Cleared? then 0
    else
      var k := trace[|trace| - 1].Kind();
      RaisedSinceReset(trace[..|trace| - 1], kind) + if k.Some? && (kind.None? || kind == k) then 1 else 0
  }

  /**
    After any calls and resets each counter tells how many calls raised its kind since the last reset,
    the total all of them.
   */
  lemma {:induction false} CountersTellTheRun(trace: seq<Event>)
    requires forall e :: e in trace ==> e.Valid()
    ensures TotalIsSum(Replay(trace)) && CountOf(Replay(trace), TOTAL) == RaisedSinceReset(trace, W.None)
    ensures forall kind :: kind != TOTAL ==> CountOf(Replay(trace), kind) == RaisedSinceReset(trace, W.Some(kind))
  {
    var none: map<string, nat> := map[];
    assert none - {TOTAL} == none;
    if trace != [] {
      var before, e := trace[..|trace| - 1], trace[|trace| - 1];
      assert e in trace && forall f :: f in before ==> f in trace;
      CountersTellTheRun(before);
      if e.Called? {
        ExceptionsCountOnce(e.layers, e.outcome, Replay(before));
        StackIsInnermost(e.layers, e.outcome, Replay(before));
      }
    }
  }

  // ---------------------------------------------------------------- unwrapping

  datatype Unwrapped = Good(v: Value) | Bad(error: Error)

  /** _unwrap_result: at most two layers are taken off. */
  method UnwrapResult(result: Value) returns (r: Unwrapped)
    ensures r == Unwrap(result)
  {
    var current := result;
    var i := 0;
    while i < 2
      invariant 0 <= i <= 2
      invariant i == 0 ==> current == result
      invariant i == 1 ==> result.Ok? && current == result.value
      invariant i == 2 ==> result.Ok? && result.value.Ok? && current == result.value.value
    {
      if current.Err? {
        return Bad(current.error);
      }
      if current.Plain? {
        break;
      }
      current := current.value;
      i := i + 1;
    }
    return Good(current);
  }

  function Unwrap(r: Value): Unwrapped {
    match r
    case Err(e) => Bad(e)
    case Plain(_) => Good(r)
    case Ok(Err(e)) => Bad(e)
    case Ok(Plain(n)) => Good(Plain(n))
    case Ok(Ok(v)) => Good(v)
  }

  /** What a result of any nesting stands for. */
  function Meaning(r: Value): Unwrapped {
    match r
    case Plain(_) => Good(r)
    case Err(e) => Bad(e)
    case Ok(v) => Meaning(v)
  }

  function OkLayers(r: Value): nat {
    if r.Ok? then 1 + OkLayers(r.value) else 0
  }

  lemma {:induction false} MeaningIsFlat(r: Value)
    ensures Meaning(r).Good? ==> Meaning(r).v.Plain?
  {
    if r.Ok? {
      MeaningIsFlat(r.value);
    }
  }

  /** Unwrapping is right exactly up to two layers around a value and one around an error. */
  lemma UnwrapIsRightExactly(r: Value)
    ensures Unwrap(r) == Meaning(r) <==> OkLayers(r) <= if Meaning(r).Good? then 2 else 1
  {
    MeaningIsFlat(r);
    if r.Ok? && r.value.Ok? {
      MeaningIsFlat(r.value.value);
      assert Meaning(r) == Meaning(r.value) == Meaning(r.value.value);
    }
  }

  /**
    A decorated call unwraps to what the function's return means, exactly for returns nested that
    little; an exception unwraps to its error, and what is no Exception goes through.
   */
  lemma CallThenUnwrap(layers: seq<Layer>, outcome: Outcome, counts: map<string, nat>)
    requires layers != []
    ensures
      var o := Call(layers, outcome, counts).0;
      && (o.Returns? <==> !outcome.Escapes()) && (outcome.Escapes() ==> o == outcome)
      && (outcome.Returns? ==> o.v == if outcome.v.Plain? then Ok(outcome.v) else outcome.v)
      && (outcome.Returns? ==>
            (Unwrap(o.v) == Meaning(outcome.v) <==> OkLayers(outcome.v) <= if Meaning(outcome.v).Good? then 2 else 1))
      && (outcome.Errs() ==>
            Unwrap(o.v) == Bad(Error(Selected(outcome.exc, layers[0].errorType, layers[0].exceptionMap),
                                     outcome.exc.text, W.Some(outcome.exc))))
  {
    StackIsInnermost(layers, outcome, counts);
    if outcome.Returns? {
      UnwrapIsRightExactly(outcome.v);
    }
  }

  /** Exactly two layers come off, whatever lies below them; an error ends it at either. */
  lemma TwoLayersComeOff(v: Value, error: Error)
    ensures Unwrap(Ok(Ok(v))) == Good(v)
    ensures Unwrap(Err(error)) == Unwrap(Ok(Err(error))) == Bad(error)
    ensures v.Plain? ==> Unwrap(v) == Unwrap(Ok(v)) == Good(v)
  {
  }

  // ---------------------------------------------------------------- collect

  /** All values in order, or the first error. */
  method Collect(results: seq<W.Result<int, Error>>) returns (r: W.Result<seq<int>, Error>)
    ensures r.Ok? <==> forall i :: 0 <= i < |results| ==> results[i].Ok?
    ensures r.Ok? ==> |r.value| == |results| && forall i :: 0 <= i < |results| ==> results[i] == W.Ok(r.value[i])
    ensures r.Err? ==> exists i :: 0 <= i < |results| && results[i] == W.Err(r.error)
                                   && forall j :: 0 <= j < i ==> results[j].Ok?
  {
    var values := [];
    for i := 0 to |results|
      invariant |values| == i && forall j :: 0 <= j < i ==> results[j] == W.Ok(values[j])
    {
      if results[i].Ok? {
        values := values + [results[i].value];
      } else {
        return W.Err(results[i].error);
      }
    }
    return W.Ok(values);
  }
}
