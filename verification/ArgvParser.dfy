/** The command-line parser of src/ArgvParser.c: a state machine that walks over argv one argument, or one
    option with its parameter, at a time. */
module ArgvParser {
  import opened Wrappers
  import opened Sequences

  const NO_PARAMETER: int := 0
  const NO_OPTION: int := -1
  const ERROR: int := -2
  const EOL: int := -3

  /** What the caller tells about one option; '\0' and None stand for a name that the option does not have. */
  datatype Descriptor = Descriptor(shortName: char, longName: Option<string>, hasParameter: int)

  /** The all-zero descriptor that ends a list; nothing behind it is looked at. */
  predicate Terminator(d: Descriptor) {
    d.shortName == '\0' && d.longName.None?
  }

  predicate Terminated(ds: seq<Descriptor>) {
    exists d <- ds :: Terminator(d)
  }

  /** How many descriptors there are before the end of the list. */
  function Count(ds: seq<Descriptor>): (n: nat)
    ensures n <= |ds|
    ensures forall i | 0 <= i < n :: !Terminator(ds[i])
    ensures n < |ds| ==> Terminator(ds[n])
  {
    if ds == [] || Terminator(ds[0]) then 0 else 1 + Count(ds[1..])
  }

  /** A C string of an argument vector; entries may be NULL. */
  type Arg = Option<string>

  predicate CString(a: Arg) {
    a.Some? ==> '\0' !in a.value
  }

  predicate CStrings(args: seq<Arg>) {
    forall a <- args :: CString(a)
  }

  predicate OptionShaped(a: Arg) {
    a.Some? && |a.value| >= 2 && a.value[0] == '-'
  }

  predicate Matches(d: Descriptor, arg: string)
    requires OptionShaped(Some(arg))
  {
    if arg[1] != '-' then d.shortName == arg[1] else d.longName == Some(arg[2..])
  }

  /** The first descriptor that the argument names. */
  function Find(ds: seq<Descriptor>, arg: string, i: nat): (r: int)
    requires OptionShaped(Some(arg))
    ensures r == NO_OPTION || (i <= r < Count(ds) && Matches(ds[r], arg))
    ensures r == NO_OPTION ==> forall k | i <= k < Count(ds) :: !Matches(ds[k], arg)
    ensures r != NO_OPTION ==> forall k | i <= k < r :: !Matches(ds[k], arg)
    decreases |ds| - i
  {
    if i >= Count(ds) then NO_OPTION else if Matches(ds[i], arg) then i else Find(ds, arg, i + 1)
  }

  /** What getCurrentArgument tells of an argument: the option's index, or NO_OPTION, and its parameter. */
  datatype Seen = Seen(optIdx: int, parameter: Arg)

  /** One call of advance on the arguments that are left: what it finds (optIdx is ERROR for an error), and
      by how much it moves on. */
  function Parsed(args: seq<Arg>, ds: seq<Descriptor>, ignore: bool): (r: (Seen, nat))
    requires args != []
    ensures 1 <= r.1 && (r.0.optIdx != ERROR ==> r.1 <= |args|)
    ensures r.0.optIdx in {ERROR, NO_OPTION} || 0 <= r.0.optIdx < Count(ds)
  {
    var a := args[0];
    if !OptionShaped(a) then (Seen(NO_OPTION, a), 1)
    else if a.value[1] != '-' && |a.value| > 2 then (Seen(ERROR, None), 1)
    else
      var i := Find(ds, a.value, 0);
      if i >= 0 then
        if ds[i].hasParameter == NO_PARAMETER then (Seen(i, None), 1)
        else if |args| > 1 then (Seen(i, args[1]), 2)
        else (Seen(ERROR, None), 2)
      else if ignore then (Seen(NO_OPTION, a), 1)
      else (Seen(ERROR, None), 1)
  }

  /** All calls of advance up to the first that does not return true: what they find, and whether it was the
      end of the line that stopped them. */
  function ParsedAll(args: seq<Arg>, ds: seq<Descriptor>, ignore: bool): (seq<Seen>, bool)
    decreases |args|
  {
    if args == [] then ([], true)
    else
      var (seen, n) := Parsed(args, ds, ignore);
      if seen.optIdx == ERROR then ([], false)
      else
        var (rest, ok) := ParsedAll(args[n..], ds, ignore);
        ([seen] + rest, ok)
  }

  /** The arguments from index i on. */
  function From(args: seq<Arg>, i: nat): seq<Arg> {
    if i >= |args| then [] else args[i..]
  }

  lemma FromFrom(args: seq<Arg>, i: nat)
    requires i < |args|
    ensures |From(args, i)| == |args| - i && From(args, i)[0] == args[i]
    ensures i + 1 < |args| ==> From(args, i)[1] == args[i + 1]
    ensures forall n: nat :: From(From(args, i), n) == From(args, i + n)
  {
  }

  lemma ParsedPlain(args: seq<Arg>, ds: seq<Descriptor>, ignore: bool)
    requires args != []
    ensures !OptionShaped(args[0]) ==> Parsed(args, ds, ignore) == (Seen(NO_OPTION, args[0]), 1)
  {
  }

  // ---------------------------------------------------------------------------
  // The parser object
  // ---------------------------------------------------------------------------

  datatype Life = Initialized | Running | Cleared

  class Parser {
    var valid: Life
    var argc: int
    var argv: Option<seq<Arg>>
    var descriptors: Option<seq<Descriptor>>
    var ignoreUnknownOptions: bool
    var errorOccurred: bool
    var curArgIdx: int
    var curOptIdx: int
    var curParameter: Arg

    /** ArgvParser_init. */
    constructor ()
      ensures valid == Initialized && argc == -1 && argv == None && descriptors == None
      ensures !ignoreUnknownOptions && !errorOccurred
    {
      valid, argc, argv, descriptors := Initialized, -1, None, None;
      ignoreUnknownOptions, errorOccurred := false, false;
      curArgIdx, curOptIdx, curParameter := 0, 0, None;
    }

    /** The arguments, once they are set. */
    ghost function Args(): seq<Arg>
      requires argv.Some? && 0 <= argc <= |argv.value|
      reads this
    {
      argv.value[..argc]
    }

    /** A parser between setup and clear. */
    ghost predicate Ready()
      reads this
    {
      && valid == Running && argv.Some? && 0 <= argc <= |argv.value|
      && descriptors.Some? && Terminated(descriptors.value)
      && -1 <= curArgIdx && (curOptIdx in {NO_OPTION, ERROR, EOL} || 0 <= curOptIdx < Count(descriptors.value))
    }

    /** The arguments that advance has not come to yet. */
    ghost function Left(): seq<Arg>
      requires Ready()
      reads this
    {
      From(Args(), curArgIdx + 1)
    }

    method SetArguments(argc: int, argv: seq<Arg>)
      requires valid == Initialized && 0 <= argc <= |argv|
      modifies this`argc, this`argv
      ensures this.argc == argc && this.argv == Some(argv)
    {
      this.argc, this.argv := argc, Some(argv);
    }

    method SetOptionDescriptors(dtors: seq<Descriptor>)
      requires valid == Initialized
      modifies this`descriptors
      ensures descriptors == Some(dtors)
    {
      descriptors := Some(dtors);
    }

    method SetIgnoreUnknownOptions(flag: bool)
      requires valid != Cleared
      modifies this`ignoreUnknownOptions
      ensures ignoreUnknownOptions == flag
    {
      ignoreUnknownOptions := flag;
    }

    /** The search loops of ArgvParser_advance, over the descriptors up to the terminator. */
    method Search(arg: string) returns (optIdx: int)
      requires Ready() && OptionShaped(Some(arg))
      ensures optIdx == Find(descriptors.value, arg, 0)
    {
      var ds := descriptors.value;
      var i := 0;
      FirstTerminator(ds);
      while !(ds[i].shortName == '\0' && ds[i].longName.None?)
        invariant 0 <= i <= Count(ds) < |ds|
        invariant Find(ds, arg, i) == Find(ds, arg, 0)
        decreases Count(ds) - i
      {
        if arg[1] != '-' {
          if arg[1] == ds[i].shortName {
            return i;
          }
        } else {
          if ds[i].longName.Some? && arg[2..] == ds[i].longName.value {
            return i;
          }
        }
        i := i + 1;
      }
      return NO_OPTION;
    }

    /** The end of ArgvParser_advance, for an argument that looks like an option. */
    method AdvanceOption(currentArg: string) returns (more: bool)
      requires Ready() && 0 <= curArgIdx < argc && curOptIdx == NO_OPTION && curParameter == None
      requires argv.value[curArgIdx] == Some(currentArg) && OptionShaped(Some(currentArg))
      modifies this`curArgIdx, this`curOptIdx, this`curParameter, this`errorOccurred
      ensures Ready()
      ensures var (seen, n) := Parsed(From(Args(), old(curArgIdx)), descriptors.value, ignoreUnknownOptions);
              && Seen(curOptIdx, curParameter) == seen && more == (seen.optIdx != ERROR)
              && errorOccurred == (old(errorOccurred) || seen.optIdx == ERROR)
              && curArgIdx == old(curArgIdx) + n - 1
    {
      FromFrom(Args(), curArgIdx);
      hide From, Find, Count, Matches, Terminated, Terminator;
      if currentArg[1] != '-' && |currentArg| > 2 {
        errorOccurred, curOptIdx := true, ERROR;
        return false;
      }
      curOptIdx := Search(currentArg);
      if curOptIdx >= 0 {
        if descriptors.value[curOptIdx].hasParameter != NO_PARAMETER {
          curArgIdx := curArgIdx + 1;
          if curArgIdx < argc {
            curParameter := argv.value[curArgIdx];
          } else {
            errorOccurred, curOptIdx := true, ERROR;
            return false;
          }
        }
      } else {
        if ignoreUnknownOptions {
          curParameter := Some(currentArg);
        } else {
          errorOccurred, curOptIdx := true, ERROR;
          return false;
        }
      }
      return true;
    }

    /** ArgvParser_advance. */
    method Advance() returns (more: bool)
      requires Ready()
      modifies this`curArgIdx, this`curOptIdx, this`curParameter, this`errorOccurred
      ensures Ready()
      ensures old(Left()) == [] ==>
                && !more && curOptIdx == EOL && curParameter == None && errorOccurred == old(errorOccurred)
                && curArgIdx == old(curArgIdx) + 1 && Left() == []
      ensures old(Left()) != [] ==>
                var (seen, n) := Parsed(old(Left()), descriptors.value, ignoreUnknownOptions);
                && Seen(curOptIdx, curParameter) == seen && more == (seen.optIdx != ERROR)
                && errorOccurred == (old(errorOccurred) || seen.optIdx == ERROR)
                && curArgIdx == old(curArgIdx) + n && Left() == From(old(Left()), n)
    {
      curParameter := None;
      curArgIdx := curArgIdx + 1;
      if curArgIdx >= argc {
        curOptIdx := EOL;
        return false;
      }
      FromFrom(Args(), curArgIdx);
      ParsedPlain(From(Args(), curArgIdx), descriptors.value, ignoreUnknownOptions);
      hide Parsed, From, Find, Count, Matches, Terminated, Terminator;
      curOptIdx := NO_OPTION;
      curParameter := None;
      var currentArg := argv.value[curArgIdx];
      if !(currentArg.Some? && |currentArg.value| >= 2 && currentArg.value[0] == '-') {
        curParameter := currentArg;
        return true;
      }
      more := AdvanceOption(currentArg.value);
    }

    /** ArgvParser_getCurrentArgument: names are those of the descriptor found, if any. */
    method GetCurrentArgument() returns (optIdx: int, shortName: char, longName: Option<string>, parameter: Arg)
      requires Ready()
      ensures optIdx == curOptIdx && parameter == curParameter
      ensures if optIdx >= 0 then optIdx < Count(descriptors.value)
                && shortName == descriptors.value[optIdx].shortName && longName == descriptors.value[optIdx].longName
              else shortName == '\0' && longName == None
    {
      shortName, longName := '\0', None;
      if curOptIdx >= 0 {
        shortName := descriptors.value[curOptIdx].shortName;
        longName := descriptors.value[curOptIdx].longName;
      }
      return curOptIdx, shortName, longName, curParameter;
    }

    /** ArgvParser_setup: it fails for missing inputs, and when the very first argument is an error. */
    method Setup() returns (result: int)
      requires valid == Initialized
      requires argv.Some? ==> argc <= |argv.value|
      requires descriptors.Some? ==> Terminated(descriptors.value)
      modifies this
      ensures result in {0, -1} && unchanged(`argc, `argv, `descriptors, `ignoreUnknownOptions)
      ensures result == 0 <==>
                && argc >= 0 && argv.Some? && descriptors.Some? && !old(errorOccurred)
                && (argc > 0 ==> Parsed(Args(), descriptors.value, ignoreUnknownOptions).0.optIdx != ERROR)
      ensures result == 0 ==> Ready() && !errorOccurred && 0 <= curArgIdx
      ensures result == 0 ==> if argc == 0 then curOptIdx == EOL && Left() == [] else
                var (seen, n) := Parsed(Args(), descriptors.value, ignoreUnknownOptions);
                Seen(curOptIdx, curParameter) == seen && Left() == Args()[n..]
    {
      if argc < 0 || argv == None || descriptors == None {
        return -1;
      }
      curArgIdx := -1;
      curOptIdx := NO_OPTION;
      valid := Running;
      assert argc > 0 ==> Left() == Args();
      var _ := Advance();
      if errorOccurred {
        return -1;
      }
      return 0;
    }
  }

  lemma {:induction false} FirstTerminator(ds: seq<Descriptor>)
    requires Terminated(ds)
    ensures Count(ds) < |ds|
  {
    if !Terminator(ds[0]) {
      var d :| d in ds && Terminator(d);
      assert d in ds[1..];
      FirstTerminator(ds[1..]);
    }
  }

  lemma EndsAtError(args: seq<Arg>, ds: seq<Descriptor>, ignore: bool)
    ensures args == [] ==> ParsedAll(args, ds, ignore) == ([], true)
    ensures args != [] && Parsed(args, ds, ignore).0.optIdx == ERROR ==> ParsedAll(args, ds, ignore) == ([], false)
    ensures args != [] && Parsed(args, ds, ignore).0.optIdx != ERROR ==>
              var (seen, n) := Parsed(args, ds, ignore);
              var (rest, ok) := ParsedAll(From(args, n), ds, ignore);
              ParsedAll(args, ds, ignore) == ([seen] + rest, ok)
  {
  }

  /** A program's use of the parser: set up, then look at the current argument and advance until advance
      says stop. `seen` is what it saw, and `error` whether an error is recorded at the end. */
  method Parse(argc: int, argv: seq<Arg>, dtors: seq<Descriptor>, ignore: bool)
      returns (seen: seq<Seen>, error: bool)
    requires 0 <= argc <= |argv| && Terminated(dtors)
    ensures (seen, !error) == ParsedAll(argv[..argc], dtors, ignore)
  {
    hide ParsedAll, Parsed, Terminated, Count, Find, From;
    seen := [];
    var self := new Parser();
    self.SetArguments(argc, argv);
    self.SetOptionDescriptors(dtors);
    self.SetIgnoreUnknownOptions(ignore);
    var result := self.Setup();
    ghost var args := argv[..argc];
    EndsAtError(args, dtors, ignore);
    if result != 0 {
      return [], true;
    }
    FromWithin(args, if argc == 0 then 0 else Parsed(args, dtors, ignore).1);
    var more := argc > 0;
    assert more <==> args != [];
    assert self.Args() == args;
    assert seen + [Seen(self.curOptIdx, self.curParameter)] == [Seen(self.curOptIdx, self.curParameter)];
    while more
      invariant self.Ready() && self.argv == Some(argv) && self.argc == argc
      invariant self.descriptors == Some(dtors) && self.ignoreUnknownOptions == ignore
      invariant more ==> !self.errorOccurred && 0 <= self.curArgIdx
      invariant var (rest, ok) := ParsedAll(self.Left(), dtors, ignore);
                ParsedAll(args, dtors, ignore)
                == if more then (seen + [Seen(self.curOptIdx, self.curParameter)] + rest, ok)
                   else (seen, !self.errorOccurred)
      decreases |self.Left()|, more
    {
      var optIdx, _, _, parameter := self.GetCurrentArgument();
      seen := seen + [Seen(optIdx, parameter)];
      assert seen + [] == seen;
      ghost var left := self.Left();
      EndsAtError(left, dtors, ignore);
      FromWithin(left, if left == [] then 0 else Parsed(left, dtors, ignore).1);
      more := self.Advance();
      if more {
        Associate(seen, [Seen(self.curOptIdx, self.curParameter)], ParsedAll(self.Left(), dtors, ignore).0);
      }
    }
    error := self.errorOccurred;
  }

  lemma FromWithin(args: seq<Arg>, n: nat)
    ensures n <= |args| ==> From(args, n) == args[n..]
    ensures 0 < n && args != [] ==> |From(args, n)| < |args|
  {
  }

  // ---------------------------------------------------------------------------
  // The language of the parser
  // ---------------------------------------------------------------------------

  /** One thing to say on a command line: a plain argument, or an option by its short or its long name. */
  datatype Item = Plain(arg: Arg) | Short(idx: nat, parameter: Arg) | Long(idx: nat, parameter: Arg)

  /** What can be said: an option under a name that it has and that no earlier descriptor has, with a
      parameter just when it takes one; and a plain argument that is not shaped like an option, or is taken
      for an unknown one where these are ignored. A short name '-' cannot be said: `--` starts a long name. */
  predicate Sayable(item: Item, ds: seq<Descriptor>, ignore: bool): (r: bool)
    ensures r && !item.Plain? ==> item.idx < |ds|
  {
    match item
    case Plain(a) =>
      CString(a) && (OptionShaped(a) ==>
        && ignore && (a.value[1] != '-' ==> |a.value| == 2)
        && forall k | 0 <= k < Count(ds) :: !Matches(ds[k], a.value))
    case Short(i, p) =>
      && i < Count(ds) && ds[i].shortName != '\0' && ds[i].shortName != '-'
      && (forall k | 0 <= k < i :: ds[k].shortName != ds[i].shortName) && Parametrized(ds[i], p)
    case Long(i, p) =>
      && i < Count(ds) && ds[i].longName.Some? && '\0' !in ds[i].longName.value
      && (forall k | 0 <= k < i :: ds[k].longName != ds[i].longName) && Parametrized(ds[i], p)
  }

  predicate AllSayable(items: seq<Item>, ds: seq<Descriptor>, ignore: bool): (r: bool)
    ensures r ==> forall i | 0 <= i < |items| :: items[i].Plain? || items[i].idx < |ds|
  {
    forall i | 0 <= i < |items| :: Sayable(items[i], ds, ignore)
  }

  predicate Parametrized(d: Descriptor, p: Arg) {
    if d.hasParameter == NO_PARAMETER then p == None else CString(p)
  }

  function Name(item: Item, ds: seq<Descriptor>): string
    requires !item.Plain? && item.idx < |ds|
  {
    if item.Short? then "-" + [ds[item.idx].shortName]
    else "--" + if ds[item.idx].longName.Some? then ds[item.idx].longName.value else ""
  }

  /** How an item is written. */
  function Print(item: Item, ds: seq<Descriptor>): (args: seq<Arg>)
    requires !item.Plain? ==> item.idx < |ds|
    ensures args != []
  {
    if item.Plain? then [item.arg]
    else [Some(Name(item, ds))] + if ds[item.idx].hasParameter == NO_PARAMETER then [] else [item.parameter]
  }

  function PrintAll(items: seq<Item>, ds: seq<Descriptor>): seq<Arg>
    requires forall i | 0 <= i < |items| :: items[i].Plain? || items[i].idx < |ds|
  {
    if items == [] then [] else Print(items[0], ds) + PrintAll(items[1..], ds)
  }

  /** What the parser lets the program see of an item. */
  function View(item: Item): Seen {
    if item.Plain? then Seen(NO_OPTION, item.arg) else Seen(item.idx, item.parameter)
  }

  function Views(items: seq<Item>): seq<Seen> {
    if items == [] then [] else [View(items[0])] + Views(items[1..])
  }

  /** The item that a call of advance recognizes. */
  function Recognized(args: seq<Arg>, ds: seq<Descriptor>, ignore: bool): Item
    requires args != []
  {
    var seen := Parsed(args, ds, ignore).0;
    if seen.optIdx < 0 then Plain(args[0])
    else if args[0].value[1] == '-' then Long(seen.optIdx, seen.parameter)
    else Short(seen.optIdx, seen.parameter)
  }

  function RecognizedAll(args: seq<Arg>, ds: seq<Descriptor>, ignore: bool): (items: seq<Item>)
    decreases |args|
  {
    if args == [] then []
    else
      var (seen, n) := Parsed(args, ds, ignore);
      if seen.optIdx == ERROR then []
      else [Recognized(args, ds, ignore)] + RecognizedAll(args[n..], ds, ignore)
  }

  lemma FindIs(ds: seq<Descriptor>, arg: string, i: nat)
    requires OptionShaped(Some(arg)) && i < Count(ds) && Matches(ds[i], arg)
    requires forall k | 0 <= k < i :: !Matches(ds[k], arg)
    ensures Find(ds, arg, 0) == i
  {
  }

  /** Printing one item and parsing it: the same item, with nothing of what follows touched. */
  lemma ParsedPrinted(item: Item, rest: seq<Arg>, ds: seq<Descriptor>, ignore: bool)
    requires Sayable(item, ds, ignore)
    ensures Parsed(Print(item, ds) + rest, ds, ignore) == (View(item), |Print(item, ds)|)
    ensures Recognized(Print(item, ds) + rest, ds, ignore) == item
  {
    if !item.Plain? {
      var d, name := ds[item.idx], Name(item, ds);
      assert item.Long? ==> d.longName == Some(name[2..]);
      FindIs(ds, name, item.idx);
    }
  }

  /** Parsing one argument and printing what was recognized: the same arguments. */
  lemma PrintedParsed(args: seq<Arg>, ds: seq<Descriptor>, ignore: bool)
    requires args != [] && CStrings(args) && Parsed(args, ds, ignore).0.optIdx != ERROR
    ensures var (seen, n) := Parsed(args, ds, ignore); var item := Recognized(args, ds, ignore);
            && Sayable(item, ds, ignore) && View(item) == seen && Print(item, ds) == args[..n]
  {
    var item := Recognized(args, ds, ignore);
    if !item.Plain? {
      var a, d := args[0].value, ds[item.idx];
      assert CString(args[0]) by { assert args[0] in args; }
      assert a[1] in a;
      assert Matches(d, a);
      assert a == if item.Short? then "-" + [a[1]] else "--" + a[2..];
      assert item.Long? ==> forall c <- a[2..] :: c in a;
    }
  }

  /** Round trip: whatever can be said, once printed, is parsed to the end without an error, and the program
      sees exactly the items said, in order. */
  lemma {:induction false} ParsePrinted(items: seq<Item>, ds: seq<Descriptor>, ignore: bool)
    requires AllSayable(items, ds, ignore)
    ensures ParsedAll(PrintAll(items, ds), ds, ignore) == (Views(items), true)
    ensures RecognizedAll(PrintAll(items, ds), ds, ignore) == items
  {
    if items != [] {
      hide Parsed, Recognized, Print, View, Sayable;
      var first, rest := Print(items[0], ds), PrintAll(items[1..], ds);
      ParsedPrinted(items[0], rest, ds, ignore);
      assert (first + rest)[|first|..] == rest;
      ParsePrinted(items[1..], ds, ignore);
    }
  }

  /** And back: whatever the parser gets through without an error is the print of exactly the items that it
      recognized, each of which can be said. */
  lemma {:induction false} PrintParsed(args: seq<Arg>, ds: seq<Descriptor>, ignore: bool)
    requires CStrings(args) && ParsedAll(args, ds, ignore).1
    ensures var items := RecognizedAll(args, ds, ignore);
            AllSayable(items, ds, ignore) && PrintAll(items, ds) == args
    decreases |args|
  {
    if args != [] {
      var n := Parsed(args, ds, ignore).1;
      var rest := args[n..];
      assert ParsedAll(rest, ds, ignore).1;
      assert RecognizedAll(args, ds, ignore) == [Recognized(args, ds, ignore)] + RecognizedAll(rest, ds, ignore);
      assert CStrings(rest) by { assert forall a <- rest :: a in args; }
      assert args == args[..n] + rest;
      PrintedParsed(args, ds, ignore);
      hide *;
      PrintParsed(rest, ds, ignore);
      OneMore(Recognized(args, ds, ignore), RecognizedAll(rest, ds, ignore), ds, ignore);
    } else {
      assert AllSayable([], ds, ignore) && PrintAll([], ds) == [];
    }
  }

  lemma OneMore(item: Item, items: seq<Item>, ds: seq<Descriptor>, ignore: bool)
    requires Sayable(item, ds, ignore) && AllSayable(items, ds, ignore)
    ensures AllSayable([item] + items, ds, ignore)
    ensures PrintAll([item] + items, ds) == Print(item, ds) + PrintAll(items, ds)
  {
    hide Sayable;
    assert ([item] + items)[1..] == items;
  }

  predicate Says(items: seq<Item>, args: seq<Arg>, ds: seq<Descriptor>, ignore: bool) {
    AllSayable(items, ds, ignore) && PrintAll(items, ds) == args
  }

  /** The parser accepts exactly the command lines that say something, and reads each in exactly one way. */
  lemma AcceptsExactly(args: seq<Arg>, ds: seq<Descriptor>, ignore: bool)
    requires CStrings(args)
    ensures ParsedAll(args, ds, ignore).1 <==> exists items: seq<Item> :: Says(items, args, ds, ignore)
    ensures forall items: seq<Item> :: Says(items, args, ds, ignore) ==> items == RecognizedAll(args, ds, ignore)
  {
    if ParsedAll(args, ds, ignore).1 {
      PrintParsed(args, ds, ignore);
      assert Says(RecognizedAll(args, ds, ignore), args, ds, ignore);
    }
    forall items: seq<Item> | Says(items, args, ds, ignore)
      ensures ParsedAll(args, ds, ignore).1 && items == RecognizedAll(args, ds, ignore)
    {
      ParsePrinted(items, ds, ignore);
    }
  }

  // ---------------------------------------------------------------------------
  // The documented example
  // ---------------------------------------------------------------------------

  /** The descriptors of the example: -h or --help, -s with a parameter, --long with one, -b or --both. */
  function ExampleOptions(): (ds: seq<Descriptor>)
    ensures |ds| == 5 && Count(ds) == 4
  {
    [Descriptor('h', Some("help"), 0), Descriptor('s', None, 1), Descriptor('\0', Some("long"), 1),
     Descriptor('b', Some("both"), 0), Descriptor('\0', None, 0)]
  }

  lemma ExampleArgument(args: seq<Arg>, ignore: bool)
    requires args != [] && args[0].Some?
    ensures var (a, r) := (args[0].value, Parsed(args, ExampleOptions(), ignore));
            && (a == "-b" ==> r == (Seen(3, None), 1))
            && (a == "-s" && |args| > 1 ==> r == (Seen(1, args[1]), 2))
            && (a == "--long" && |args| > 1 ==> r == (Seen(2, args[1]), 2))
            && (a in ["my-program", "-"] ==> r == (Seen(-1, args[0]), 1))
            && (a in ["-x", "--x"] && ignore ==> r == (Seen(-1, args[0]), 1))
            && (a in ["-x", "--x"] && !ignore ==> r.0.optIdx == -2)
            && (a == "-bs" || (a in ["-s", "--long"] && |args| == 1) ==> r.0.optIdx == -2)
  {
    var ds, a := ExampleOptions(), args[0].value;
    hide Find;
    if OptionShaped(args[0]) {
      var i := Find(ds, a, 0);
      assert a == "-b" ==> i == 3 by { assert a == "-b" ==> Matches(ds[3], a); }
      assert a == "-s" ==> i == 1 by { assert a == "-s" ==> Matches(ds[1], a); }
      assert a == "--long" ==> i == 2 by { assert a == "--long" ==> Matches(ds[2], a); }
      assert a in ["-x", "--x"] ==> i == -1;
    }
  }

  /** my-program -b -s arg1 --long arg2 */
  lemma DocumentedExample(ignore: bool)
    ensures ParsedAll([Some("my-program"), Some("-b"), Some("-s"), Some("arg1"), Some("--long"), Some("arg2")], ExampleOptions(), ignore)
         == ([Seen(-1, Some("my-program")), Seen(3, None), Seen(1, Some("arg1")), Seen(2, Some("arg2"))], true)
  {
    hide Parsed, ParsedAll, ExampleOptions;
    var ds := ExampleOptions();
    var args := [Some("my-program"), Some("-b"), Some("-s"), Some("arg1"), Some("--long"), Some("arg2")];
    ExampleArgument(args, ignore);
    ExampleArgument(args[1..], ignore);
    ExampleArgument(args[2..], ignore);
    ExampleArgument(args[4..], ignore);
    EndsAtError(args, ds, ignore);
    EndsAtError(args[1..], ds, ignore);
    EndsAtError(args[2..], ds, ignore);
    EndsAtError(args[4..], ds, ignore);
    EndsAtError(args[6..], ds, ignore);
    assert From(args[1..], 1) == args[2..] && From(args[2..], 2) == args[4..] && From(args[4..], 2) == args[6..];
    assert From(args, 1) == args[1..] && ParsedAll(args[4..], ds, ignore).0 == [Seen(2, Some("arg2"))];
    assert ParsedAll(args[2..], ds, ignore).0 == [Seen(1, Some("arg1")), Seen(2, Some("arg2"))];
    assert ParsedAll(args[1..], ds, ignore).0 == [Seen(3, None), Seen(1, Some("arg1")), Seen(2, Some("arg2"))];
    assert ParsedAll(args, ds, ignore).1;
    assert ParsedAll(args, ds, ignore).0 == [Seen(-1, Some("my-program")), Seen(3, None), Seen(1, Some("arg1")), Seen(2, Some("arg2"))];
  }

  /** An error on this line, and what an ignored unknown option leaves to see. */
  lemma ErrorExamples(a: string, ignore: bool)
    ensures var r := ParsedAll([Some(a)], ExampleOptions(), ignore);
            && (a in ["-bs", "-s", "--long"] ==> r == ([], false))
            && (a in ["-x", "--x"] ==> r == if ignore then ([Seen(-1, Some(a))], true) else ([], false))
            && (a == "-" ==> r == ([Seen(-1, Some("-"))], true))
  {
    hide Parsed, ParsedAll, ExampleOptions;
    ExampleArgument([Some(a)], ignore);
    var args := [Some(a)];
    EndsAtError(args, ExampleOptions(), ignore);
    EndsAtError(From(args, 1), ExampleOptions(), ignore);
    assert [Seen(-1, args[0])] + [] == [Seen(-1, args[0])];
  }
}
