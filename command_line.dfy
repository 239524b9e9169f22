/**
 * The command line of the Make tool: an action, then options (arguments
 * starting with "-"), each collecting the plain arguments that follow it.
 * Both snapshots of the tool parse it the same way.
 */
module CommandLine {
  import opened Wrappers
  import opened JavaText

  /** The options map: each option with the values given to it, in order. */
  type Options = map<string, seq<string>>

  predicate IsOption(arg: string) {
    StartsWith(arg, "-")
  }

  /** The values of `key`, none when the option is absent. */
  function ValuesIn(options: Options, key: string): seq<string> {
    if key in options then options[key] else []
  }

  datatype Invocation = Invocation(action: string, options: Options)

  /** The options gathered so far and the option the next plain argument belongs to. */
  datatype Parsing = Parsing(options: Options, current: Option<string>)
  {
    /** The current option exists, and a plain argument never comes before the first option. */
    predicate ReadyFor(args: seq<string>) {
      && (current.Some? ==> current.value in options)
      && (current.Some? || args == [] || IsOption(args[0]))
    }
  }

  /** One argument: an option becomes current (created empty the first time), a value is appended to the current option. */
  function Step(p: Parsing, arg: string): (r: Parsing)
    requires p.ReadyFor([arg])
    ensures r.current.Some? && r.current.value in r.options
  {
    if IsOption(arg) then Parsing(if arg in p.options then p.options else p.options[arg := []], Some(arg))
    else Parsing(p.options[p.current.value := p.options[p.current.value] + [arg]], p.current)
  }

  /** The loop over the arguments after the action. */
  function ParseFrom(p: Parsing, args: seq<string>): Options
    requires p.ReadyFor(args)
    decreases |args|
  {
    if args == [] then p.options else ParseFrom(Step(p, args[0]), args[1..])
  }

  /** The plain arguments at the head of `args`, up to the next option. */
  function LeadingValues(args: seq<string>): seq<string> {
    if args == [] || IsOption(args[0]) then [] else [args[0]] + LeadingValues(args[1..])
  }

  /** What `key` collects from `args`: the plain arguments after each of its occurrences, in order. */
  function ValuesOf(args: seq<string>, key: string): seq<string> {
    if args == [] then []
    else (if args[0] == key && IsOption(key) then LeadingValues(args[1..]) else []) + ValuesOf(args[1..], key)
  }

  /**
   * The loop's result for one option: it is present exactly when it was
   * already or occurs in `args`, and its values are the earlier ones, then
   * those following the current option, then those after each occurrence.
   */
  lemma {:induction false} ParseFromValues(p: Parsing, args: seq<string>, key: string)
    requires p.ReadyFor(args)
    ensures key in ParseFrom(p, args) <==> key in p.options || (IsOption(key) && key in args)
    ensures ValuesIn(ParseFrom(p, args), key)
      == ValuesIn(p.options, key) + (if p.current == Some(key) then LeadingValues(args) else []) + ValuesOf(args, key)
    decreases |args|
  {
    if args != [] {
      var arg := args[0];
      var p' := Step(p, arg);
      ParseFromValues(p', args[1..], key);
      StepValues(p, arg, key);
      HeadUnfold(args, key);
    }
  }

  /** One step of the loop, seen from one option. */
  lemma StepValues(p: Parsing, arg: string, key: string)
    requires p.ReadyFor([arg])
    ensures key in Step(p, arg).options <==> key in p.options || (IsOption(arg) && arg == key)
    ensures ValuesIn(Step(p, arg).options, key)
      == ValuesIn(p.options, key) + (if !IsOption(arg) && p.current == Some(key) then [arg] else [])
    ensures Step(p, arg).current == (if IsOption(arg) then Some(arg) else p.current)
  {
  }

  /** LeadingValues and ValuesOf taken one argument at a time. */
  lemma HeadUnfold(args: seq<string>, key: string)
    requires args != []
    ensures LeadingValues(args) == if IsOption(args[0]) then [] else [args[0]] + LeadingValues(args[1..])
    ensures ValuesOf(args, key)
      == (if args[0] == key && IsOption(key) then LeadingValues(args[1..]) else []) + ValuesOf(args[1..], key)
    ensures key in args <==> args[0] == key || key in args[1..]
  {
    assert args == [args[0]] + args[1..];
  }

  const NoAction: string := "At least an action must be provided"

  /** Arrays.asList(args).toString(): the elements between brackets, separated by ", ". */
  function ListText(xs: seq<string>): string {
    "[" + Elements(xs) + "]"
  }

  function Elements(xs: seq<string>): string {
    if xs == [] then "" else if |xs| == 1 then xs[0] else xs[0] + ", " + Elements(xs[1..])
  }

  /**
   * main's reading of its arguments: the action first, then, when there is
   * more, an option straight after it, then the options loop.
   */
  function CommandLineOf(args: seq<string>): (r: Result<Invocation, Failure>)
    ensures args == [] <==> r == Failure(IllegalArgument(NoAction))
    ensures r.Success? <==> args != [] && (|args| == 1 || IsOption(args[1]))
    ensures r.Success? ==> r.value.action == args[0]
  {
    if |args| == 0 then Failure(IllegalArgument(NoAction))
    else if |args| > 1 && !IsOption(args[1]) then
      Failure(IllegalArgument("Action " + args[0] + " must be followed by an option: " + ListText(args)))
    else Success(Invocation(args[0], ParseFrom(Parsing(map[], None), args[1..])))
  }

  /**
   * Every option given is in the map, and nothing else; an option repeated
   * keeps one entry, whose values are those following each occurrence.
   */
  lemma OptionValues(args: seq<string>, key: string)
    requires CommandLineOf(args).Success?
    ensures var options := CommandLineOf(args).value.options;
      && (key in options <==> IsOption(key) && key in args[1..])
      && ValuesIn(options, key) == ValuesOf(args[1..], key)
  {
    ParseFromValues(Parsing(map[], None), args[1..], key);
  }

  /** An argument other than the option itself adds nothing to its values. */
  lemma ValuesOfOther(arg: string, rest: seq<string>, key: string)
    requires arg != key
    ensures ValuesOf([arg] + rest, key) == ValuesOf(rest, key)
  {
    assert ([arg] + rest)[0] == arg && ([arg] + rest)[1..] == rest;
  }

  /** An occurrence of the option collects the plain arguments that follow it. */
  lemma ValuesOfOccurrence(key: string, rest: seq<string>)
    requires IsOption(key)
    ensures ValuesOf([key] + rest, key) == LeadingValues(rest) + ValuesOf(rest, key)
  {
    assert ([key] + rest)[0] == key && ([key] + rest)[1..] == rest;
  }

  /** An option repeated collects the values after each of its occurrences, in order. */
  lemma RepeatedOption(option: string, first: seq<string>, other: string, second: seq<string>)
    requires IsOption(option) && IsOption(other) && other != option
    requires forall i :: 0 <= i < |first| ==> !IsOption(first[i])
    requires forall i :: 0 <= i < |second| ==> !IsOption(second[i])
    ensures ValuesOf([option] + (first + ([other] + ([option] + second))), option) == first + second
  {
    var tail := [option] + second;
    var y := [other] + tail;
    assert second + [] == second;
    calc {
      ValuesOf([option] + (first + y), option);
      { ValuesOfOccurrence(option, first + y); }
      LeadingValues(first + y) + ValuesOf(first + y, option);
      { LeadingPlain(first, y); ValuesOfPlain(first, y, option); }
      first + ValuesOf(y, option);
      { ValuesOfOther(other, tail, option); }
      first + ValuesOf(tail, option);
      { ValuesOfOccurrence(option, second); }
      first + (LeadingValues(second) + ValuesOf(second, option));
      { LeadingPlain(second, []); ValuesOfPlain(second, [], option); }
      first + (second + []);
    }
  }

  /** Plain arguments followed by an option (or nothing) are exactly the leading values. */
  lemma {:induction false} LeadingPlain(plain: seq<string>, rest: seq<string>)
    requires forall i :: 0 <= i < |plain| ==> !IsOption(plain[i])
    requires rest == [] || IsOption(rest[0])
    ensures LeadingValues(plain + rest) == plain
  {
    if plain != [] {
      assert (plain + rest)[1..] == plain[1..] + rest;
      LeadingPlain(plain[1..], rest);
      assert [plain[0]] + plain[1..] == plain;
    } else {
      assert plain + rest == rest;
    }
  }

  /** Plain arguments give no option any value by themselves. */
  lemma {:induction false} ValuesOfPlain(plain: seq<string>, rest: seq<string>, key: string)
    requires forall i :: 0 <= i < |plain| ==> !IsOption(plain[i])
    ensures ValuesOf(plain + rest, key) == ValuesOf(rest, key)
  {
    if plain != [] {
      assert (plain + rest)[1..] == plain[1..] + rest;
      ValuesOfPlain(plain[1..], rest, key);
    } else {
      assert plain + rest == rest;
    }
  }

  /**
   * main's argument checks and options loop, with the options map and the
   * current option updated argument by argument.
   */
  method ParseCommandLine(args: seq<string>) returns (r: Result<Invocation, Failure>)
    ensures r == CommandLineOf(args)
  {
    if |args| == 0 {
      return Failure(IllegalArgument(NoAction));
    }
    var action := args[0];
    if |args| > 1 && !IsOption(args[1]) {
      return Failure(IllegalArgument("Action " + action + " must be followed by an option: " + ListText(args)));
    }
    var options: Options := map[];
    var current: Option<string> := None;
    ghost var goal := ParseFrom(Parsing(options, current), args[1..]);
    var i := 1;
    while i < |args|
      invariant 1 <= i <= |args|
      invariant Parsing(options, current).ReadyFor(args[i..])
      invariant ParseFrom(Parsing(options, current), args[i..]) == goal
    {
      assert args[i..][0] == args[i] && args[i..][1..] == args[i + 1..];
      if IsOption(args[i]) {
        current := Some(args[i]);
        if args[i] !in options {
          options := options[args[i] := []];
        }
      } else {
        options := options[current.value := options[current.value] + [args[i]]];
      }
      i := i + 1;
    }
    assert args[i..] == [];
    r := Success(Invocation(action, options));
  }
}
