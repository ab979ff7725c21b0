/**
 * The format registry's dispatcher: it turns the command-line action into an
 * Action and offers the file, at a start offset, to each registered parser in
 * turn until one of them handles it. Nested dispatch (a container handing an
 * embedded payload back to the registry) uses a start offset above zero, and
 * then container parsers are never consulted.
 */
module Parsers {
  import opened Bytes

  datatype Action = ShowAction | ClearAction | ExtractAction

  /** The command-line spelling of each action. */
  function ActionName(a: Action): string
  {
    match a
    case ShowAction => "show"
    case ClearAction => "clear"
    case ExtractAction => "extract"
  }

  /** Accepts exactly the three action spellings; anything else is an error naming the argument. */
  function ConvertAction(arg: string): (r: Result<Action>)
    ensures r.Ok? ==> ActionName(r.value) == arg
    ensures r.Failure? <==> (forall a: Action :: ActionName(a) != arg)
    ensures r.Failure? ==> r.msg == "invalid action: " + arg
  {
    if arg == "show" then Ok(ShowAction)
    else if arg == "clear" then Ok(ClearAction)
    else if arg == "extract" then Ok(ExtractAction)
    else Failure("invalid action: " + arg)
  }

  /** ConvertAction reads back every action's own spelling. */
  lemma ConvertActionRoundTrip(a: Action)
    ensures ConvertAction(ActionName(a)) == Ok(a)
  {
  }

  /**
   * A registered parser. Its Support and Handle callbacks are not part of
   * this model; `support` and `handle` are what they report for the file and
   * start offset being dispatched.
   */
  datatype Parser = Parser(name: string, container: bool, support: Result<bool>, handle: Result<()>)

  /** A callback invocation, by position in the registry. */
  datatype Call = SupportCall(index: nat) | HandleCall(index: nat)

  /** Whether parsed is set, the error returned, and the callbacks invoked, in order. */
  datatype Outcome = Outcome(parsed: bool, err: Option<string>, calls: seq<Call>)

  /** A container parser is skipped when dispatching a payload nested in another file. */
  predicate Eligible(p: Parser, startOffset: int)
  {
    !(startOffset > 0 && p.container)
  }

  function Prepend(cs: seq<Call>, o: Outcome): Outcome
  {
    Outcome(o.parsed, o.err, cs + o.calls)
  }

  /** Dispatch from registry position `k` onward. */
  function Dispatch(ps: seq<Parser>, startOffset: int, k: nat): Outcome
    requires k <= |ps|
    decreases |ps| - k
  {
    if k == |ps| then Outcome(false, None, [])
    else if !Eligible(ps[k], startOffset) then Dispatch(ps, startOffset, k + 1)
    else match ps[k].support
      case Failure(m) => Outcome(false, Some(m), [SupportCall(k)])
      case Ok(supported) =>
        if !supported then Prepend([SupportCall(k)], Dispatch(ps, startOffset, k + 1))
        else match ps[k].handle
          case Failure(m) => Outcome(false, Some(m), [SupportCall(k), HandleCall(k)])
          case Ok(_) => Outcome(true, None, [SupportCall(k), HandleCall(k)])
  }

  /**
   * Offers the file to each parser in registry order: a Support error aborts,
   * an unsupported format moves on, and the first supporting parser's Handle
   * decides the result.
   */
  method StartParsing(parsers: seq<Parser>, startOffset: int)
    returns (parsed: bool, err: Option<string>, calls: seq<Call>)
    ensures Outcome(parsed, err, calls) == Dispatch(parsers, startOffset, 0)
  {
    parsed := false;
    err := None;
    calls := [];
    var i := 0;
    while i < |parsers|
      invariant 0 <= i <= |parsers|
      invariant Dispatch(parsers, startOffset, 0) == Prepend(calls, Dispatch(parsers, startOffset, i))
      decreases |parsers| - i
    {
      var p := parsers[i];
      if startOffset > 0 && p.container {
        i := i + 1;
        continue;
      }
      calls := calls + [SupportCall(i)];
      if p.support.Failure? {
        return false, Some(p.support.msg), calls;
      }
      if !p.support.value {
        i := i + 1;
        continue;
      }
      calls := calls + [HandleCall(i)];
      if p.handle.Failure? {
        return false, Some(p.handle.msg), calls;
      }
      parsed := true;
      return;
    }
  }

  // ---- what dispatch promises ----

  /** The first eligible parser at or after `k` whose Support does not answer "unsupported". */
  function Decider(ps: seq<Parser>, startOffset: int, k: nat): (d: Option<nat>)
    requires k <= |ps|
    ensures d.Some? ==> (k <= d.value < |ps| && Eligible(ps[d.value], startOffset)
      && ps[d.value].support != Ok(false))
    ensures d.Some? ==> forall j :: k <= j < d.value && Eligible(ps[j], startOffset) ==> ps[j].support == Ok(false)
    ensures d.None? ==> forall j :: k <= j < |ps| && Eligible(ps[j], startOffset) ==> ps[j].support == Ok(false)
    decreases |ps| - k
  {
    if k == |ps| then None
    else if Eligible(ps[k], startOffset) && ps[k].support != Ok(false) then Some(k)
    else Decider(ps, startOffset, k + 1)
  }

  /** The Support calls made before reaching position `stop`: every eligible parser in order. */
  function SupportCalls(ps: seq<Parser>, startOffset: int, k: nat, stop: nat): seq<Call>
    requires k <= stop <= |ps|
    decreases stop - k
  {
    if k == stop then []
    else (if Eligible(ps[k], startOffset) then [SupportCall(k)] else []) + SupportCalls(ps, startOffset, k + 1, stop)
  }

  /**
   * The whole outcome of dispatch is fixed by the deciding parser: with none,
   * every eligible parser was asked and nothing was handled; otherwise its
   * Support error, or its Handle result, is the outcome and it is the last
   * parser called.
   */
  lemma {:induction false} DispatchByDecider(ps: seq<Parser>, startOffset: int, k: nat)
    requires k <= |ps|
    ensures var o := Dispatch(ps, startOffset, k);
      match Decider(ps, startOffset, k)
      case None => o == Outcome(false, None, SupportCalls(ps, startOffset, k, |ps|))
      case Some(d) =>
        var asked := SupportCalls(ps, startOffset, k, d) + [SupportCall(d)];
        match ps[d].support
        case Failure(m) => o == Outcome(false, Some(m), asked)
        case Ok(_) =>
          o.calls == asked + [HandleCall(d)]
          && o.parsed == ps[d].handle.Ok?
          && o.err == (if ps[d].handle.Ok? then None else Some(ps[d].handle.msg))
    decreases |ps| - k
  {
    if k < |ps| {
      DispatchByDecider(ps, startOffset, k + 1);
      if !(Eligible(ps[k], startOffset) && ps[k].support != Ok(false)) {
        match Decider(ps, startOffset, k + 1)
        case None =>
        case Some(d) =>
          assert SupportCalls(ps, startOffset, k, d)
            == (if Eligible(ps[k], startOffset) then [SupportCall(k)] else []) + SupportCalls(ps, startOffset, k + 1, d);
      }
    }
  }

  /** When a nested payload is dispatched, no container parser is ever called. */
  lemma {:induction false} NestedSkipsContainers(ps: seq<Parser>, startOffset: int, k: nat)
    requires k <= |ps|
    requires startOffset > 0
    ensures forall c :: c in Dispatch(ps, startOffset, k).calls ==> c.index < |ps| && !ps[c.index].container
    decreases |ps| - k
  {
    if k < |ps| {
      NestedSkipsContainers(ps, startOffset, k + 1);
    }
  }

  predicate HandleOnlyLast(cs: seq<Call>)
  {
    forall i :: 0 <= i < |cs| && cs[i].HandleCall? ==> i == |cs| - 1
  }

  /** Handle runs at most once per dispatch, and only as the very last call. */
  lemma {:induction false} HandleAtMostOnce(ps: seq<Parser>, startOffset: int, k: nat)
    requires k <= |ps|
    ensures HandleOnlyLast(Dispatch(ps, startOffset, k).calls)
    ensures var cs := Dispatch(ps, startOffset, k).calls;
      Dispatch(ps, startOffset, k).parsed ==> (|cs| > 0 && cs[|cs| - 1].HandleCall?)
    decreases |ps| - k
  {
    if k < |ps| {
      HandleAtMostOnce(ps, startOffset, k + 1);
      var rest := Dispatch(ps, startOffset, k + 1).calls;
      if Eligible(ps[k], startOffset) && ps[k].support == Ok(false) {
        var cs := Dispatch(ps, startOffset, k).calls;
        assert cs == [SupportCall(k)] + rest;
        forall i | 0 <= i < |cs| && cs[i].HandleCall?
          ensures i == |cs| - 1
        {
          assert i >= 1 && cs[i] == rest[i - 1];
          assert HandleOnlyLast(rest);
        }
      }
    }
  }

  /** A successful dispatch never reports an error, and an error is never a success. */
  lemma {:induction false} ParsedExcludesError(ps: seq<Parser>, startOffset: int, k: nat)
    requires k <= |ps|
    ensures Dispatch(ps, startOffset, k).parsed ==> Dispatch(ps, startOffset, k).err.None?
    ensures Dispatch(ps, startOffset, k).err.Some? ==> !Dispatch(ps, startOffset, k).parsed
    decreases |ps| - k
  {
    if k < |ps| {
      ParsedExcludesError(ps, startOffset, k + 1);
    }
  }
}
