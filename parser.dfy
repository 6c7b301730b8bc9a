/**
 * `parse_command_string`: one input line `START:O1-D1,...,On-Dn` becomes a
 * command. Every way the line can be malformed is a `ParseError`, the
 * model's counterpart of the `ValueError` the line raises.
 */
module CommandParser {
  import opened Wrappers
  import opened Text
  import opened Elevator

  datatype ParseError =
    | NotOneColon              // the line does not split on ':' into exactly two fields
    | NotAnInteger(token: string) // a floor token is not an integer
    | NotAPair(item: string)   // a transition does not split on '-' into exactly two integers

  /**
   * `parse` applied to every item in order, stopping at the first failure:
   * accepted exactly when every item is, and then one result per item.
   */
  function ParseEach<T>(items: seq<string>, parse: string -> Result<T, ParseError>): (r: Result<seq<T>, ParseError>)
    ensures r.Success? <==> forall i :: 0 <= i < |items| ==> parse(items[i]).Success?
    ensures r.Success? ==> |r.value| == |items|
    ensures r.Success? ==> forall i :: 0 <= i < |items| ==> r.value[i] == parse(items[i]).value
    ensures r.Failure? ==> exists i :: 0 <= i < |items| && parse(items[i]) == Failure(r.error)
    decreases |items|
  {
    if items == [] then Success([])
    else
      var before := items[..|items| - 1];
      assert forall i :: 0 <= i < |before| ==> before[i] == items[i];
      match ParseEach(before, parse)
      case Failure(e) => Failure(e)
      case Success(done) =>
        match parse(items[|items| - 1])
        case Failure(e) => Failure(e)
        case Success(x) => Success(done + [x])
  }

  /** `int(token)`, failing with the token it could not read. */
  function ParseFloor(token: string): (r: Result<int, ParseError>)
    ensures r.Success? <==> IsIntToken(token)
    ensures r.Success? && token[0] == '-' ==> r.value == -(DecimalValue(token[1..]) as int)
    ensures r.Success? && token[0] != '-' ==> r.value == DecimalValue(token)
    ensures r.Failure? ==> r.error == NotAnInteger(token)
  {
    match ParseInt(token)
    case None => Failure(NotAnInteger(token))
    case Some(n) => Success(n)
  }

  /**
   * One `O-D` item, as `[int(i) for i in item.split('-')]` unpacked into two:
   * all of its `-`-separated tokens must be integers, and there must be
   * exactly two of them. An accepted item therefore holds exactly one `-`,
   * so neither of its floors can be negative.
   */
  function ParseTransition(item: string): (r: Result<Transition, ParseError>)
    ensures var t := Split(item, '-');
      r.Success? <==> |t| == 2 && IsIntToken(t[0]) && IsIntToken(t[1])
    ensures var t := Split(item, '-');
      r.Success? ==> r.value == Transition(ParseInt(t[0]).value, ParseInt(t[1]).value)
    ensures var t := Split(item, '-');
      r.Failure? && (forall i :: 0 <= i < |t| ==> IsIntToken(t[i])) ==> r.error == NotAPair(item)
    ensures r.Success? ==> multiset(item)['-'] == 1
    ensures r.Success? ==> r.value.origin >= 0 && r.value.destination >= 0
  {
    var tokens := Split(item, '-');
    match ParseEach(tokens, ParseFloor)
    case Failure(e) => Failure(e)
    case Success(ns) =>
      if |ns| != 2 then Failure(NotAPair(item))
      else
        assert ParseFloor(tokens[0]).Success? && ParseFloor(tokens[1]).Success?;
        Success(Transition(ns[0], ns[1]))
  }

  /**
   * The reading of a whole line that `ParseCommandString` carries out. An
   * accepted line holds exactly one `:` and gives at least one transition.
   */
  function Parse(s: string): (r: Result<Command, ParseError>)
    ensures r.Success? ==> multiset(s)[':'] == 1
    ensures r.Success? ==> |r.value.transitions| >= 1
  {
    var fields := Split(s, ':');
    if |fields| != 2 then Failure(NotOneColon)
    else match ParseInt(fields[0])
      case None => Failure(NotAnInteger(fields[0]))
      case Some(start) =>
        match ParseEach(Split(fields[1], ','), ParseTransition)
        case Failure(e) => Failure(e)
        case Success(ts) => Success(Command(start, ts))
  }

  /** Reading one more item: the failure of the prefix, else the item's own failure, else one more result. */
  lemma ParseEachStep<T>(items: seq<string>, parse: string -> Result<T, ParseError>, i: nat)
    requires i < |items|
    ensures ParseEach(items[..i + 1], parse) ==
      match ParseEach(items[..i], parse)
      case Failure(e) => Failure(e)
      case Success(done) =>
        match parse(items[i])
        case Failure(e) => Failure(e)
        case Success(x) => Success(done + [x])
  {
    assert items[..i + 1][..i] == items[..i];
  }

  /** Once a prefix of the items fails, so does the whole list, with the same error. */
  lemma {:induction false} ParseEachPrefixFailure<T>(items: seq<string>, parse: string -> Result<T, ParseError>, j: nat)
    requires j <= |items|
    requires ParseEach(items[..j], parse).Failure?
    ensures ParseEach(items, parse) == ParseEach(items[..j], parse)
    decreases |items| - j
  {
    if j < |items| {
      assert items[..j + 1][..j] == items[..j];
      ParseEachPrefixFailure(items, parse, j + 1);
    } else {
      assert items[..j] == items;
    }
  }

  /**
   * The loop of `parse_command_string`: one transition appended per item,
   * stopping at the first item that is not an accepted `O-D` pair.
   */
  method ParseItems(items: seq<string>) returns (r: Result<seq<Transition>, ParseError>)
    ensures r == ParseEach(items, ParseTransition)
  {
    var transitions: seq<Transition> := [];
    for i := 0 to |items|
      invariant ParseEach(items[..i], ParseTransition) == Success(transitions)
    {
      ParseEachStep(items, ParseTransition, i);
      var transition := ParseTransition(items[i]);
      if transition.Failure? {
        ParseEachPrefixFailure(items, ParseTransition, i + 1);
        return Failure(transition.error);
      }
      transitions := transitions + [transition.value];
    }
    assert items[..|items|] == items;
    return Success(transitions);
  }

  /**
   * `parse_command_string`: split the line on `:`, read the start floor,
   * then read the comma-separated items as transitions.
   */
  method ParseCommandString(s: string) returns (r: Result<Command, ParseError>)
    ensures r == Parse(s)
    ensures r.Success? ==> |r.value.transitions| >= 1
  {
    var fields := Split(s, ':');
    if |fields| != 2 {
      return Failure(NotOneColon);
    }
    var start := ParseInt(fields[0]);
    if start.None? {
      return Failure(NotAnInteger(fields[0]));
    }
    var items := Split(fields[1], ',');
    var transitions := ParseItems(items);
    if transitions.Failure? {
      return Failure(transitions.error);
    }
    return Success(Command(start.value, transitions.value));
  }

  /** One `:`, an integer before it, and an accepted `O-D` pair in every comma-separated item after it. */
  ghost predicate AcceptedLine(s: string)
  {
    && multiset(s)[':'] == 1
    && ParseInt(Split(s, ':')[0]).Some?
    && var items := Split(Split(s, ':')[1], ',');
      forall i :: 0 <= i < |items| ==> ParseTransition(items[i]).Success?
  }

  /**
   * What the parser accepts: a line is accepted exactly when it holds one
   * `:`, the text before it is an integer and every comma-separated item
   * after it is an accepted `O-D` pair.
   */
  lemma ParseAccepts(s: string)
    ensures Parse(s).Success? ==> AcceptedLine(s)
    ensures AcceptedLine(s) ==> Parse(s).Success?
  {
  }

  /**
   * What the parser builds from an accepted line: the integer before the
   * `:` as start floor and one transition per item, in order.
   */
  lemma ParseBuilds(s: string)
    requires Parse(s).Success?
    ensures var fields := Split(s, ':');
      var items := Split(fields[1], ',');
      && |fields| == 2
      && Parse(s).value.startFloor == ParseInt(fields[0]).value
      && |Parse(s).value.transitions| == |items|
      && forall i :: 0 <= i < |items| ==> Parse(s).value.transitions[i] == ParseTransition(items[i]).value
  {
    var fields := Split(s, ':');
    var r := ParseEach(Split(fields[1], ','), ParseTransition);
    assert Parse(s) == Success(Command(ParseInt(fields[0]).value, r.value));
  }

  /**
   * Every parsed command has at least one transition, and none of its
   * origins or destinations is negative (only the start floor may be).
   */
  lemma ParsedCommandShape(s: string)
    requires Parse(s).Success?
    ensures |Parse(s).value.transitions| >= 1
    ensures forall i :: 0 <= i < |Parse(s).value.transitions| ==>
      Parse(s).value.transitions[i].origin >= 0 && Parse(s).value.transitions[i].destination >= 0
  {
  }

  // ---------------------------------------------------------------------------
  // The canonical form of a command, which the parser reads back.

  function FormatTransition(t: Transition): string
    requires t.origin >= 0 && t.destination >= 0
  {
    FormatNat(t.origin) + ['-'] + FormatNat(t.destination)
  }

  /** A command the parser can produce: at least one transition, no negative origin or destination. */
  ghost predicate Parsable(cmd: Command)
  {
    && |cmd.transitions| >= 1
    && forall i :: 0 <= i < |cmd.transitions| ==>
      cmd.transitions[i].origin >= 0 && cmd.transitions[i].destination >= 0
  }

  /** The canonical `O-D` items of a command, in order. */
  function FormatItems(ts: seq<Transition>): seq<string>
    requires forall i :: 0 <= i < |ts| ==> ts[i].origin >= 0 && ts[i].destination >= 0
  {
    seq(|ts|, i requires 0 <= i < |ts| => FormatTransition(ts[i]))
  }

  /** `START:O1-D1,...,On-Dn` with every number in its shortest decimal form. */
  function FormatCommand(cmd: Command): string
    requires Parsable(cmd)
  {
    FormatInt(cmd.startFloor) + [':'] + Join(FormatItems(cmd.transitions), ',')
  }

  lemma SplitFormatTransition(t: Transition)
    requires t.origin >= 0 && t.destination >= 0
    ensures Split(FormatTransition(t), '-') == [FormatNat(t.origin), FormatNat(t.destination)]
  {
    var o, d := FormatNat(t.origin), FormatNat(t.destination);
    DigitsHaveNo(o, '-');
    DigitsHaveNo(d, '-');
    SplitAfterFirst(o, d, '-');
    SplitWithoutSeparator(d, '-');
  }

  lemma ParseFloorPair(a: nat, b: nat)
    ensures ParseEach([FormatNat(a), FormatNat(b)], ParseFloor) == Success([a, b])
  {
    ParseIntFormatInt(a);
    ParseIntFormatInt(b);
    var tokens := [FormatNat(a), FormatNat(b)];
    assert ParseFloor(tokens[0]) == Success(a as int);
    assert ParseFloor(tokens[1]) == Success(b as int);
    var r := ParseEach(tokens, ParseFloor);
    assert r.Success? && |r.value| == 2;
    assert r.value == [a, b];
  }

  lemma ParseFormatTransition(t: Transition)
    requires t.origin >= 0 && t.destination >= 0
    ensures ParseTransition(FormatTransition(t)) == Success(t)
  {
    SplitFormatTransition(t);
    ParseFloorPair(t.origin, t.destination);
  }

  /** The canonical items hold neither separator and each reads back as its transition. */
  lemma ParseFormatItems(ts: seq<Transition>)
    requires forall i :: 0 <= i < |ts| ==> ts[i].origin >= 0 && ts[i].destination >= 0
    ensures forall i :: 0 <= i < |ts| ==> ',' !in FormatItems(ts)[i] && ':' !in FormatItems(ts)[i]
    ensures ParseEach(FormatItems(ts), ParseTransition) == Success(ts)
  {
    var items := FormatItems(ts);
    forall i | 0 <= i < |ts|
      ensures ',' !in items[i] && ':' !in items[i]
      ensures ParseTransition(items[i]) == Success(ts[i])
    {
      FormatIntHasNoSeparator(ts[i].origin, ',');
      FormatIntHasNoSeparator(ts[i].destination, ',');
      FormatIntHasNoSeparator(ts[i].origin, ':');
      FormatIntHasNoSeparator(ts[i].destination, ':');
      ParseFormatTransition(ts[i]);
    }
    var r := ParseEach(items, ParseTransition);
    assert r.Success?;
    assert r.value == ts;
  }

  /** The canonical line splits on `:` into the start floor and the items joined by commas. */
  lemma SplitFormatCommand(cmd: Command)
    requires Parsable(cmd)
    ensures Split(FormatCommand(cmd), ':') ==
      [FormatInt(cmd.startFloor), Join(FormatItems(cmd.transitions), ',')]
  {
    var items := FormatItems(cmd.transitions);
    ParseFormatItems(cmd.transitions);
    JoinChars(items, ',', ':');
    FormatIntHasNoSeparator(cmd.startFloor, ':');
    SplitAfterFirst(FormatInt(cmd.startFloor), Join(items, ','), ':');
    SplitWithoutSeparator(Join(items, ','), ':');
  }

  /**
   * Parsing is a left inverse of the canonical formatter: every command the
   * parser can produce comes back unchanged from its canonical line.
   */
  lemma ParseFormatRoundTrip(cmd: Command)
    requires Parsable(cmd)
    ensures Parse(FormatCommand(cmd)) == Success(cmd)
  {
    var items := FormatItems(cmd.transitions);
    SplitFormatCommand(cmd);
    ParseFormatItems(cmd.transitions);
    SplitJoin(items, ',');
    ParseIntFormatInt(cmd.startFloor);
  }
}
