/** The option parsers of the command line. */
module CommandLine {
  import opened Results
  import opened ByteStrings
  import opened Text

  const UNLOCK_KEY: Bytes := Ascii("--unlock-key")
  const NAME: Bytes := Ascii("--name")
  const OUTPUT: Bytes := Ascii("--output")
  const KEEP: Bytes := Ascii("--keep")

  datatype Options = Options(
    positionals: seq<Bytes>,
    unlockKey: Option<Bytes>,
    name: Option<Bytes>,
    output: Option<Bytes>)

  const NO_OPTIONS: Options := Options([], None, None, None)

  /** Which options a command admits besides `--unlock-key`. */
  datatype Allowed = Allowed(name: bool, output: bool)

  /** An argument that is text and starts with a dash. */
  predicate LooksLikeOption(arg: Bytes) {
    ValidUtf8(arg) && arg != [] && arg[0] == DASH
  }

  /** Parsing `args` behind what was read so far. An argument that is not UTF-8 is always positional. */
  function ParseFrom(args: seq<Bytes>, allowed: Allowed, soFar: Options): Result<Options>
    decreases |args|
  {
    if args == [] then Ok(soFar)
    else if args[0] == UNLOCK_KEY then
      if |args| < 2 then Err(Usage) else ParseFrom(args[2..], allowed, soFar.(unlockKey := Some(args[1])))
    else if args[0] == NAME && allowed.name then
      if |args| < 2 || !ValidUtf8(args[1]) then Err(Usage)
      else ParseFrom(args[2..], allowed, soFar.(name := Some(args[1])))
    else if args[0] == OUTPUT && allowed.output then
      if |args| < 2 then Err(Usage) else ParseFrom(args[2..], allowed, soFar.(output := Some(args[1])))
    else if LooksLikeOption(args[0]) then Err(Usage)
    else ParseFrom(args[1..], allowed, soFar.(positionals := soFar.positionals + [args[0]]))
  }

  function ParseOptionsOf(args: seq<Bytes>, allowed: Allowed): Result<Options> {
    ParseFrom(args, allowed, NO_OPTIONS)
  }

  method ParseOptions(args: seq<Bytes>, allowed: Allowed) returns (r: Result<Options>)
    ensures r == ParseOptionsOf(args, allowed)
  {
    var positionals: seq<Bytes> := [];
    var unlockKey, name, output: Option<Bytes> := None, None, None;
    var index := 0;
    while index < |args|
      invariant 0 <= index <= |args|
      invariant ParseFrom(args[index..], allowed, Options(positionals, unlockKey, name, output))
             == ParseOptionsOf(args, allowed)
    {
      var arg := args[index];
      if arg == UNLOCK_KEY {
        index := index + 1;
        if index >= |args| {
          return Err(Usage);
        }
        unlockKey := Some(args[index]);
      } else if arg == NAME && allowed.name {
        index := index + 1;
        if index >= |args| || !ValidUtf8(args[index]) {
          return Err(Usage);
        }
        name := Some(args[index]);
      } else if arg == OUTPUT && allowed.output {
        index := index + 1;
        if index >= |args| {
          return Err(Usage);
        }
        output := Some(args[index]);
      } else if LooksLikeOption(arg) {
        return Err(Usage);
      } else {
        positionals := positionals + [arg];
      }
      index := index + 1;
    }
    r := Ok(Options(positionals, unlockKey, name, output));
  }

  // ---------------------------------------------------------------- what a command line says

  datatype Item = Positional(arg: Bytes) | UnlockKeyIs(value: Bytes) | NameIs(value: Bytes) | OutputIs(value: Bytes)

  /** What may stand on a command line: as a positional argument anything but text that starts with a dash, as a
      name only text. */
  ghost predicate Legal(item: Item, allowed: Allowed) {
    match item
    case Positional(arg) => !([DASH] <= arg && IsText(arg))
    case UnlockKeyIs(_) => true
    case NameIs(value) => allowed.name && IsText(value)
    case OutputIs(_) => allowed.output
  }

  ghost predicate AllLegal(items: seq<Item>, allowed: Allowed) {
    forall i :: 0 <= i < |items| ==> Legal(items[i], allowed)
  }

  function Spelling(item: Item): seq<Bytes> {
    match item
    case Positional(arg) => [arg]
    case UnlockKeyIs(value) => [UNLOCK_KEY, value]
    case NameIs(value) => [NAME, value]
    case OutputIs(value) => [OUTPUT, value]
  }

  function Spelled(items: seq<Item>): seq<Bytes> {
    if items == [] then [] else Spelling(items[0]) + Spelled(items[1..])
  }

  /** The positional arguments, in order. */
  function Positionals(items: seq<Item>): seq<Bytes> {
    if items == [] then []
    else (if items[0].Positional? then [items[0].arg] else []) + Positionals(items[1..])
  }

  /** `last` holds for the value of the last item that satisfies `p`, or there is none. */
  ghost predicate LastOf(items: seq<Item>, p: Item -> bool, last: Option<Bytes>) {
    if exists i :: 0 <= i < |items| && p(items[i]) then
      exists i :: 0 <= i < |items| && p(items[i]) && last == Some(ValueOf(items[i]))
               && forall j :: i < j < |items| ==> !p(items[j])
    else last == None
  }

  function ValueOf(item: Item): Bytes {
    match item
    case Positional(arg) => arg
    case UnlockKeyIs(value) => value
    case NameIs(value) => value
    case OutputIs(value) => value
  }

  /** `o` is what `items` mean: the positionals in order, and the last value of each option. */
  ghost predicate Means(items: seq<Item>, o: Options) {
    && o.positionals == Positionals(items)
    && LastOf(items, (i: Item) => i.UnlockKeyIs?, o.unlockKey)
    && LastOf(items, (i: Item) => i.NameIs?, o.name)
    && LastOf(items, (i: Item) => i.OutputIs?, o.output)
  }

  /** The effect of one item on what was read so far. */
  function Absorb(soFar: Options, item: Item): Options {
    match item
    case Positional(arg) => soFar.(positionals := soFar.positionals + [arg])
    case UnlockKeyIs(value) => soFar.(unlockKey := Some(value))
    case NameIs(value) => soFar.(name := Some(value))
    case OutputIs(value) => soFar.(output := Some(value))
  }

  lemma OptionNames(arg: Bytes)
    requires arg == UNLOCK_KEY || arg == NAME || arg == OUTPUT
    ensures LooksLikeOption(arg)
  {
    assert |UNLOCK_KEY| == 12 && |NAME| == 6 && |OUTPUT| == 8;
    AsciiIsUtf8(arg);
  }

  lemma LegalExact(item: Item, allowed: Allowed)
    ensures Legal(item, allowed) <==>
            match item
            case Positional(arg) => !LooksLikeOption(arg)
            case NameIs(value) => allowed.name && ValidUtf8(value)
            case OutputIs(_) => allowed.output
            case UnlockKeyIs(_) => true
  {
    hide ValidUtf8, IsText;
    ValidUtf8Exact(if item.Positional? then item.arg else item.value);
  }

  lemma ParseOne(item: Item, rest: seq<Bytes>, allowed: Allowed, soFar: Options)
    requires Legal(item, allowed)
    ensures ParseFrom(Spelling(item) + rest, allowed, soFar) == ParseFrom(rest, allowed, Absorb(soFar, item))
  {
    if item.Positional? && (item.arg == UNLOCK_KEY || item.arg == NAME || item.arg == OUTPUT) {
      OptionNames(item.arg);
    }
    LegalExact(item, allowed);
    hide ValidUtf8, Legal;
    assert |UNLOCK_KEY| == 12 && |NAME| == 6 && |OUTPUT| == 8;
    var args := Spelling(item) + rest;
    assert item.Positional? ==> args[1..] == rest;
    assert !item.Positional? ==> args[2..] == rest;
  }

  /** Absorbing items after others keeps the meaning. */
  lemma MeansSnoc(items: seq<Item>, o: Options, item: Item)
    requires Means(items, o)
    ensures Means(items + [item], Absorb(o, item))
  {
    PositionalsSnoc(items, item);
    LastOfSnoc(items, item, (i: Item) => i.UnlockKeyIs?, o.unlockKey);
    LastOfSnoc(items, item, (i: Item) => i.NameIs?, o.name);
    LastOfSnoc(items, item, (i: Item) => i.OutputIs?, o.output);
  }

  lemma {:induction false} PositionalsSnoc(items: seq<Item>, item: Item)
    ensures Positionals(items + [item]) == Positionals(items) + (if item.Positional? then [item.arg] else [])
  {
    if items == [] {
      assert items + [item] == [item];
    } else {
      var all, last := items + [item], if item.Positional? then [item.arg] else [];
      assert all[0] == items[0] && all[1..] == items[1..] + [item];
      var first := if items[0].Positional? then [items[0].arg] else [];
      PositionalsSnoc(items[1..], item);
      assert first + (Positionals(items[1..]) + last) == first + Positionals(items[1..]) + last;
    }
  }

  lemma LastOfSnoc(items: seq<Item>, item: Item, p: Item -> bool, last: Option<Bytes>)
    requires LastOf(items, p, last)
    ensures LastOf(items + [item], p, if p(item) then Some(ValueOf(item)) else last)
  {
    var all := items + [item];
    if p(item) {
      assert all[|items|] == item;
    } else if exists i :: 0 <= i < |items| && p(items[i]) {
      var i :| 0 <= i < |items| && p(items[i]) && last == Some(ValueOf(items[i]))
               && forall j :: i < j < |items| ==> !p(items[j]);
      assert all[i] == items[i];
    } else {
      forall i | 0 <= i < |all|
        ensures !p(all[i])
      {
      }
    }
  }

  function AbsorbAll(soFar: Options, items: seq<Item>): Options
    decreases |items|
  {
    if items == [] then soFar else AbsorbAll(Absorb(soFar, items[0]), items[1..])
  }

  lemma {:induction false} SpelledParses(items: seq<Item>, allowed: Allowed, soFar: Options)
    requires AllLegal(items, allowed)
    ensures ParseFrom(Spelled(items), allowed, soFar) == Ok(AbsorbAll(soFar, items))
    decreases |items|
  {
    hide ValidUtf8, Spelling;
    if items != [] {
      ParseOne(items[0], Spelled(items[1..]), allowed, soFar);
      SpelledParses(items[1..], allowed, Absorb(soFar, items[0]));
    }
  }

  lemma {:induction false} AbsorbedMeans(before: seq<Item>, items: seq<Item>, soFar: Options)
    requires Means(before, soFar)
    ensures Means(before + items, AbsorbAll(soFar, items))
    decreases |items|
  {
    hide Means, Absorb;
    if items == [] {
      assert before + items == before;
    } else {
      MeansSnoc(before, soFar, items[0]);
      AbsorbedMeans(before + [items[0]], items[1..], Absorb(soFar, items[0]));
      assert before + [items[0]] + items[1..] == before + items;
    }
  }

  /** Nothing else is accepted. */
  lemma {:induction false} ParsedIsSpelled(args: seq<Bytes>, allowed: Allowed, soFar: Options)
    returns (items: seq<Item>)
    requires ParseFrom(args, allowed, soFar).Ok?
    ensures AllLegal(items, allowed) && args == Spelled(items)
    decreases |args|
  {
    hide ValidUtf8, Legal;
    if args == [] {
      items := [];
    } else {
      var item :=
        if args[0] == UNLOCK_KEY then UnlockKeyIs(args[1])
        else if args[0] == NAME && allowed.name then NameIs(args[1])
        else if args[0] == OUTPUT && allowed.output then OutputIs(args[1])
        else Positional(args[0]);
      var rest := args[|Spelling(item)|..];
      var tail := ParsedIsSpelled(rest, allowed, Absorb(soFar, item));
      items := [item] + tail;
      LegalExact(item, allowed);
      assert args == Spelling(item) + rest;
    }
  }

  /** A command line is accepted exactly when it spells legal items, and then means what they mean. */
  lemma ParseOptionsExact(args: seq<Bytes>, allowed: Allowed)
    ensures ParseOptionsOf(args, allowed).Ok? <==> exists items :: AllLegal(items, allowed) && args == Spelled(items)
    ensures forall items :: AllLegal(items, allowed) && args == Spelled(items) ==>
              ParseOptionsOf(args, allowed).Ok? && Means(items, ParseOptionsOf(args, allowed).value)
  {
    hide ParseFrom, Absorb, AbsorbAll;
    forall items | AllLegal(items, allowed) && args == Spelled(items)
      ensures ParseOptionsOf(args, allowed).Ok? && Means(items, ParseOptionsOf(args, allowed).value)
    {
      SpelledParses(items, allowed, NO_OPTIONS);
      AbsorbedMeans([], items, NO_OPTIONS);
      assert [] + items == items;
    }
    if ParseOptionsOf(args, allowed).Ok? {
      var items := ParsedIsSpelled(args, allowed, NO_OPTIONS);
    }
  }

  // ---------------------------------------------------------------- open

  datatype OpenOptions = OpenOptions(options: Options, keep: bool)

  function WithoutKeep(args: seq<Bytes>): seq<Bytes> {
    if args == [] then []
    else (if args[0] == KEEP then [] else [args[0]]) + WithoutKeep(args[1..])
  }

  function Keeps(args: seq<Bytes>): nat {
    if args == [] then 0 else (if args[0] == KEEP then 1 else 0) + Keeps(args[1..])
  }

  function ParseOpenOptionsOf(args: seq<Bytes>): Result<OpenOptions> {
    if Keeps(args) > 1 then Err(Usage)
    else
      var options :- ParseOptionsOf(WithoutKeep(args), Allowed(false, false));
      Ok(OpenOptions(options, Keeps(args) == 1))
  }

  lemma KeepStep(args: seq<Bytes>, i: nat)
    requires i < |args|
    ensures Keeps(args[i..]) == (if args[i] == KEEP then 1 else 0) + Keeps(args[i + 1..])
    ensures WithoutKeep(args[i..])
         == (if args[i] == KEEP then [] else [args[i]]) + WithoutKeep(args[i + 1..])
  {
    assert args[i..][1..] == args[i + 1..];
  }

  /** The loop that filters `--keep`; the final test for an output path is dead. */
  method ParseOpenOptions(args: seq<Bytes>) returns (r: Result<OpenOptions>)
    ensures r == ParseOpenOptionsOf(args)
  {
    hide ParseFrom;
    var filtered: seq<Bytes> := [];
    var keep := false;
    for i := 0 to |args|
      invariant filtered + WithoutKeep(args[i..]) == WithoutKeep(args)
      invariant (if keep then 1 else 0) + Keeps(args[i..]) == Keeps(args)
    {
      ghost var rest := WithoutKeep(args[i + 1..]);
      KeepStep(args, i);
      if args[i] == KEEP {
        if keep {
          return Err(Usage);
        }
        keep := true;
      } else {
        assert filtered + ([args[i]] + rest) == filtered + [args[i]] + rest;
        filtered := filtered + [args[i]];
      }
    }
    assert args[|args|..] == [] && filtered + [] == filtered;
    var options :- ParseOptions(filtered, Allowed(false, false));
    NoOutputUnlessAllowed(filtered, Allowed(false, false), NO_OPTIONS);
    if options.output.Some? {
      return Err(Usage);
    }
    r := Ok(OpenOptions(options, keep));
  }

  lemma {:induction false} NoOutputUnlessAllowed(args: seq<Bytes>, allowed: Allowed, soFar: Options)
    requires !allowed.output && soFar.output.None? && ParseFrom(args, allowed, soFar).Ok?
    ensures ParseFrom(args, allowed, soFar).value.output.None?
    decreases |args|
  {
    if args != [] {
      if args[0] == UNLOCK_KEY {
        NoOutputUnlessAllowed(args[2..], allowed, soFar.(unlockKey := Some(args[1])));
      } else if args[0] == NAME && allowed.name {
        NoOutputUnlessAllowed(args[2..], allowed, soFar.(name := Some(args[1])));
      } else {
        NoOutputUnlessAllowed(args[1..], allowed, soFar.(positionals := soFar.positionals + [args[0]]));
      }
    }
  }

  lemma {:induction false} KeepConcat(a: seq<Bytes>, b: seq<Bytes>)
    ensures Keeps(a + b) == Keeps(a) + Keeps(b) && WithoutKeep(a + b) == WithoutKeep(a) + WithoutKeep(b)
  {
    if a == [] {
      assert a + b == b;
    } else {
      var head: seq<Bytes> := if a[0] == KEEP then [] else [a[0]];
      assert (a + b)[0] == a[0] && (a + b)[1..] == a[1..] + b;
      KeepConcat(a[1..], b);
      assert WithoutKeep(a + b) == head + (WithoutKeep(a[1..]) + WithoutKeep(b));
    }
  }

  lemma {:induction false} NoKeep(a: seq<Bytes>)
    requires KEEP !in a
    ensures Keeps(a) == 0 && WithoutKeep(a) == a
  {
    if a != [] {
      NoKeep(a[1..]);
    }
  }

  /** Without `--keep`, `open` parses its arguments like any command, and keeps nothing. */
  lemma KeepAbsent(args: seq<Bytes>)
    requires KEEP !in args
    ensures ParseOpenOptionsOf(args) ==
            var rest := ParseOptionsOf(args, Allowed(false, false));
            if rest.Ok? then Ok(OpenOptions(rest.value, false)) else Err(Usage)
  {
    NoKeep(args);
    OnlyUsage(args, Allowed(false, false), NO_OPTIONS);
  }

  /** A repeated `--keep` is refused, wherever the two stand. */
  lemma KeepRepeated(args: seq<Bytes>, i: nat, j: nat)
    requires i < j < |args| && args[i] == args[j] == KEEP
    ensures ParseOpenOptionsOf(args) == Err(Usage)
  {
    var front, middle, back := args[..i], args[i + 1..j], args[j + 1..];
    assert args == front + ([KEEP] + (middle + ([KEEP] + back)));
    KeepConcat(front, [KEEP] + (middle + ([KEEP] + back)));
    KeepConcat([KEEP], middle + ([KEEP] + back));
    KeepConcat(middle, [KEEP] + back);
    KeepConcat([KEEP], back);
    assert Keeps([KEEP]) == 1;
  }

  /** A single `--keep` may stand anywhere, even between an option and its value: only the arguments around
      it count. */
  lemma KeepAnywhere(before: seq<Bytes>, after: seq<Bytes>)
    requires KEEP !in before && KEEP !in after
    ensures ParseOpenOptionsOf(before + [KEEP] + after) ==
            var rest := ParseOptionsOf(before + after, Allowed(false, false));
            if rest.Ok? then Ok(OpenOptions(rest.value, true)) else Err(Usage)
  {
    KeepConcat(before + [KEEP], after);
    KeepConcat(before, [KEEP]);
    NoKeep(before);
    NoKeep(after);
    assert WithoutKeep([KEEP]) == [] && Keeps([KEEP]) == 1;
    assert before + [] == before;
    OnlyUsage(before + after, Allowed(false, false), NO_OPTIONS);
  }

  lemma {:induction false} OnlyUsage(args: seq<Bytes>, allowed: Allowed, soFar: Options)
    ensures ParseFrom(args, allowed, soFar).Err? ==> ParseFrom(args, allowed, soFar).error == Usage
    decreases |args|
  {
    if |args| >= 2 {
      OnlyUsage(args[2..], allowed, soFar.(unlockKey := Some(args[1])));
      OnlyUsage(args[2..], allowed, soFar.(name := Some(args[1])));
      OnlyUsage(args[2..], allowed, soFar.(output := Some(args[1])));
    }
    if args != [] {
      OnlyUsage(args[1..], allowed, soFar.(positionals := soFar.positionals + [args[0]]));
    }
  }

  /** `open` refuses its arguments exactly when `--keep` is repeated or the rest is ill-formed. */
  lemma OpenOptionsRefusedExactly(args: seq<Bytes>)
    ensures ParseOpenOptionsOf(args).Err? <==>
            Keeps(args) > 1
            || !exists items :: AllLegal(items, Allowed(false, false)) && WithoutKeep(args) == Spelled(items)
  {
    ParseOptionsExact(WithoutKeep(args), Allowed(false, false));
  }
}
