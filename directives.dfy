/**
 * Rule lines as a security profile writes them (words separated by single spaces, option
 * values given as `--name=value`), read back through the whole model.
 */
module Directives {
  import opened Wrappers
  import opened Seqs
  import opened Text
  import opened Grammar
  import opened Packages
  import opened RuleSpec

  /** The tokens `name=v` for each value v, in order. */
  function Assignments(name: string, values: seq<string>): (tokens: seq<string>)
    ensures |tokens| == |values|
    ensures forall k :: 0 <= k < |values| ==> tokens[k] == name + "=" + values[k]
  {
    if values == [] then [] else [name + "=" + values[0]] + Assignments(name, values[1..])
  }

  /** The occurrences the option `o` records for the values, in order. */
  function Values(o: OptionSpec, values: seq<string>): (occurrences: seq<Occurrence>)
    requires forall k :: 0 <= k < |values| ==> Convert(o, values[k]).Ok?
    ensures |occurrences| == |values|
    ensures forall k :: 0 <= k < |values| ==> occurrences[k] == Occurrence(o.name, Convert(o, values[k]).value)
  {
    if values == [] then [] else [Occurrence(o.name, Convert(o, values[0]).value)] + Values(o, values[1..])
  }

  /** Each list of mount options written with ",".join. */
  function CsvValues(lists: seq<seq<string>>): (values: seq<string>)
    ensures |values| == |lists|
    ensures forall k :: 0 <= k < |lists| ==> values[k] == Join(lists[k], ',')
  {
    if lists == [] then [] else [Join(lists[0], ',')] + CsvValues(lists[1..])
  }

  function Flatten(lists: seq<seq<string>>): seq<string> {
    if lists == [] then [] else lists[0] + Flatten(lists[1..])
  }

  /** "%d" of each number. */
  function Formatted(ns: seq<int>): (values: seq<string>)
    ensures |values| == |ns|
    ensures forall k :: 0 <= k < |ns| ==> values[k] == FormatInt(ns[k])
  {
    if ns == [] then [] else [FormatInt(ns[0])] + Formatted(ns[1..])
  }

  lemma {:induction false} SplitAtEqualsOf(name: string, value: string)
    requires '=' !in name
    ensures SplitAtEquals(name + "=" + value) == (name, Some(value))
  {
    var arg := name + "=" + value;
    if name == [] {
      assert arg == "=" + value;
      assert arg[1..] == value;
    } else {
      assert arg[0] == name[0] != '=';
      assert arg[1..] == name[1..] + "=" + value;
      SplitAtEqualsOf(name[1..], value);
      assert [arg[0]] + name[1..] == name;
    }
  }

  /** Positional arguments in front of the rest are passed through, in order. */
  lemma {:induction false} ScanPlainThen(grammar: seq<OptionSpec>, plain: seq<string>, rest: seq<string>)
    requires forall k :: 0 <= k < |plain| ==> IsPlain(plain[k])
    requires Scan(grammar, rest).Ok?
    ensures Scan(grammar, plain + rest) ==
      Ok(ParsedArgs(Scan(grammar, rest).value.occurrences, plain + Scan(grammar, rest).value.args))
  {
    if plain != [] {
      var arg, after := plain[0], Scan(grammar, rest).value;
      assert IsPlain(arg);
      ScanPlainThen(grammar, plain[1..], rest);
      ScanPlainStep(grammar, arg, plain[1..] + rest);
      HeadTail(plain);
      ConcatAssociates([arg], plain[1..], rest);
      ConcatAssociates([arg], plain[1..], after.args);
    } else {
      assert plain + rest == rest;
      assert plain + Scan(grammar, rest).value.args == Scan(grammar, rest).value.args;
    }
  }

  /** A positional argument is passed through. */
  lemma ScanPlainStep(grammar: seq<OptionSpec>, arg: string, tail: seq<string>)
    requires IsPlain(arg)
    requires Scan(grammar, tail).Ok?
    ensures Scan(grammar, [arg] + tail) ==
      Ok(ParsedArgs(Scan(grammar, tail).value.occurrences, [arg] + Scan(grammar, tail).value.args))
  {
    assert arg != "--" && !IsPrefix("--", arg) && !(|arg| > 1 && arg[0] == '-') by {
      if arg != [] && arg[0] == '-' { assert arg == "-"; }
    }
    assert ([arg] + tail)[1..] == tail;
  }

  /** Each `--name=value` of a string or int option records one occurrence, in order. */
  lemma {:induction false} ScanAssignments(grammar: seq<OptionSpec>, o: OptionSpec, values: seq<string>, rest: seq<string>)
    requires Named(grammar, o.name) == Some(o)
    requires o.valueType == StringValue || o.valueType == IntValue
    requires IsPrefix("--", o.name) && '=' !in o.name
    requires forall k :: 0 <= k < |values| ==> Convert(o, values[k]).Ok?
    requires Scan(grammar, rest).Ok?
    ensures Scan(grammar, Assignments(o.name, values) + rest) ==
      Ok(ParsedArgs(Values(o, values) + Scan(grammar, rest).value.occurrences, Scan(grammar, rest).value.args))
  {
    if values != [] {
      var tail := Assignments(o.name, values[1..]) + rest;
      var tokens := Assignments(o.name, values) + rest;
      assert tokens == [o.name + "=" + values[0]] + tail;
      ScanAssignments(grammar, o, values[1..], rest);
      var after := Scan(grammar, rest).value;
      var later := Values(o, values[1..]);
      assert Scan(grammar, tail) == Ok(ParsedArgs(later + after.occurrences, after.args));
      ScanAssignment(grammar, o, values[0], tail);
      var head := Occurrence(o.name, Convert(o, values[0]).value);
      assert Scan(grammar, tokens) == Ok(ParsedArgs([head] + (later + after.occurrences), after.args));
      assert [head] + (later + after.occurrences) == ([head] + later) + after.occurrences;
      assert Values(o, values) == [head] + later;
    } else {
      assert Assignments(o.name, values) + rest == rest;
      assert Values(o, values) + Scan(grammar, rest).value.occurrences == Scan(grammar, rest).value.occurrences;
    }
  }

  lemma ScanAssignment(grammar: seq<OptionSpec>, o: OptionSpec, value: string, tail: seq<string>)
    requires Named(grammar, o.name) == Some(o)
    requires o.valueType == StringValue || o.valueType == IntValue
    requires IsPrefix("--", o.name) && '=' !in o.name
    requires Convert(o, value).Ok?
    requires Scan(grammar, tail).Ok?
    ensures Scan(grammar, [o.name + "=" + value] + tail) ==
      Ok(ParsedArgs([Occurrence(o.name, Convert(o, value).value)] + Scan(grammar, tail).value.occurrences,
                    Scan(grammar, tail).value.args))
  {
    var tokens := [o.name + "=" + value] + tail;
    var arg := tokens[0];
    SplitAtEqualsOf(o.name, value);
    assert arg != "--" && IsPrefix("--", arg) by {
      assert |arg| > 2 && arg[..2] == o.name[..2];
    }
    assert MatchLong(grammar, o.name) == Ok(o);
    assert tokens[1..] == tail;
  }

  lemma JoinEnds(ws: seq<string>)
    requires |ws| >= 1 && ws[|ws| - 1] != []
    ensures Join(ws, ' ') != [] && Join(ws, ' ')[|Join(ws, ' ')| - 1] == ws[|ws| - 1][|ws[|ws| - 1]| - 1]
  {
    if |ws| > 1 {
      JoinEnds(ws[1..]);
    }
  }

  lemma {:induction false} JoinFirstWord(ws: seq<string>)
    requires |ws| >= 1 && NoSpace(ws[0])
    requires forall k :: 0 <= k < |ws| ==> ws[k] != []
    ensures WordPrefix(Join(ws, ' ')) == ws[0]
  {
    if |ws| == 1 {
      WordPrefixOfWord(ws[0], []);
      assert ws[0] + [] == ws[0];
    } else {
      WordPrefixOfWord(ws[0], [' '] + Join(ws[1..], ' '));
      assert Join(ws, ' ') == ws[0] + ([' '] + Join(ws[1..], ' '));
    }
  }

  /**
   * A line of words separated by single spaces goes to the handler its first word names,
   * which reads exactly those words; any other first word is refused.
   */
  lemma ReadLine(r: Rules, ws: seq<string>)
    requires |ws| >= 1
    requires forall k :: 0 <= k < |ws| ==> ws[k] != [] && NoSpace(ws[k]) && NoQuote(ws[k])
    ensures WithRule(r, Join(ws, ' ')) ==
      match KindOf(ws[0])
      case None => Err(UnknownRule(ws[0]))
      case Some(kind) => Handle(r, kind, ws)
  {
    var line := Join(ws, ' ');
    JoinStartsWithWord(ws);
    JoinEnds(ws);
    assert !IsSpace(line[|line| - 1]);
    assert TrimLeft(line) == line;
    assert TrimRight(line) == line;
    assert Strip(line) == line;
    JoinFirstWord(ws);
    WordsJoin(ws);
  }

  /** `part <mount point> --mountoptions=<list> ...`, one comma-joined list per option. */
  function PartWords(mountPoint: string, lists: seq<seq<string>>): seq<string> {
    ["part", mountPoint] + Assignments("--mountoptions", CsvValues(lists))
  }

  /**
   * A part line with any number of --mountoptions, each a comma-joined list, adds all the
   * listed options, in order and without duplicates, to the mount point's rule.
   */
  lemma PartLine(r: Rules, mountPoint: string, lists: seq<seq<string>>)
    requires mountPoint != [] && NoSpace(mountPoint) && NoQuote(mountPoint) && IsPlain(mountPoint)
    requires forall i :: 0 <= i < |lists| ==>
      forall k :: 0 <= k < |lists[i]| ==> IsCsvItem(lists[i][k]) && NoSpace(lists[i][k]) && NoQuote(lists[i][k])
    ensures WithRule(r, Join(PartWords(mountPoint, lists), ' ')) ==
      Ok(r.(parts := r.parts[mountPoint := AppendAbsent(OptionsOf(r.parts, mountPoint), Flatten(lists))]))
  {
    OptionWords(["part", mountPoint], lists);
    assert PartWords(mountPoint, lists) == ["part", mountPoint] + Assignments("--mountoptions", CsvValues(lists));
    Dispatch(r, PartWords(mountPoint, lists), PartKind);
    PartTokens(mountPoint, lists);
    HandlePart(r, PartWords(mountPoint, lists), PartDirective(mountPoint, Flatten(lists)));
  }

  lemma HandlePart(r: Rules, tokens: seq<string>, d: PartDirective)
    requires ParsePart(tokens) == Ok(d)
    ensures Handle(r, PartKind, tokens) ==
      Ok(r.(parts := r.parts[d.mountPoint := AppendAbsent(OptionsOf(r.parts, d.mountPoint), d.mountOptions)]))
  {
  }

  lemma PartTokens(mountPoint: string, lists: seq<seq<string>>)
    requires IsPlain(mountPoint)
    requires forall i :: 0 <= i < |lists| ==> forall k :: 0 <= k < |lists[i]| ==> IsCsvItem(lists[i][k])
    ensures ParsePart(PartWords(mountPoint, lists)) == Ok(PartDirective(mountPoint, Flatten(lists)))
  {
    PartScan(mountPoint, lists);
    MountOptionsOfLists(lists);
  }

  lemma PartScan(mountPoint: string, lists: seq<seq<string>>)
    requires IsPlain(mountPoint)
    ensures Scan(PartGrammar, PartWords(mountPoint, lists)) ==
      Ok(ParsedArgs(Values(OptionSpec("--mountoptions", StringValue), CsvValues(lists)), ["part", mountPoint]))
  {
    ScanLine(PartGrammar, OptionSpec("--mountoptions", StringValue), ["part", mountPoint], CsvValues(lists));
  }

  lemma JoinWord(parts: seq<string>, sep: char)
    requires !IsSpace(sep) && !IsQuoting(sep)
    requires forall k :: 0 <= k < |parts| ==> NoSpace(parts[k]) && NoQuote(parts[k])
    ensures NoSpace(Join(parts, sep)) && NoQuote(Join(parts, sep))
  {
    if |parts| > 1 {
      JoinWord(parts[1..], sep);
    }
  }

  lemma {:induction false} MountOptionsOfLists(lists: seq<seq<string>>)
    requires forall i :: 0 <= i < |lists| ==> forall k :: 0 <= k < |lists[i]| ==> IsCsvItem(lists[i][k])
    ensures MountOptions(Values(OptionSpec("--mountoptions", StringValue), CsvValues(lists))) == Flatten(lists)
  {
    if lists != [] {
      var o := OptionSpec("--mountoptions", StringValue);
      var occurrences := Values(o, CsvValues(lists));
      assert occurrences[1..] == Values(o, CsvValues(lists[1..]));
      ParseCsvRoundTrip(lists[0]);
      MountOptionsOfLists(lists[1..]);
    }
  }

  lemma FormatIntWord(n: int)
    ensures FormatInt(n) != [] && NoSpace(FormatInt(n)) && NoQuote(FormatInt(n))
  {
    var digits := FormatNat(if n < 0 then -n else n);
    assert forall i :: 0 <= i < |digits| ==> DigitOf(digits[i]) < 10;
  }

  /** `passwd --minlen=<n> ...`, one option per number, written with "%d". */
  function PasswdWords(ns: seq<int>): seq<string> {
    ["passwd"] + Assignments("--minlen", Formatted(ns))
  }

  /**
   * Of several --minlen on one line the last one counts (0 when there is none), and the
   * stored minimal length becomes the larger of it and the old one.
   */
  lemma PasswdLine(r: Rules, ns: seq<int>)
    ensures var given := if ns == [] then 0 else ns[|ns| - 1];
      WithRule(r, Join(PasswdWords(ns), ' ')) == Ok(r.(minlen := if given > r.minlen then given else r.minlen))
  {
    var ws := PasswdWords(ns);
    PasswdWordsAreWords(ns);
    assert ws[0] == "passwd";
    Dispatch(r, ws, PasswdKind);
    PasswdScan(ns);
    HandlePasswd(r, ws, if ns == [] then 0 else ns[|ns| - 1]);
  }

  lemma HandlePasswd(r: Rules, tokens: seq<string>, minlen: int)
    requires ParsePasswd(tokens) == Ok(minlen)
    ensures Handle(r, PasswdKind, tokens) == Ok(r.(minlen := if minlen > r.minlen then minlen else r.minlen))
  {
  }

  lemma PasswdWordsAreWords(ns: seq<int>)
    ensures forall k :: 0 <= k < |PasswdWords(ns)| ==> PasswdWords(ns)[k] != [] && NoSpace(PasswdWords(ns)[k]) && NoQuote(PasswdWords(ns)[k])
  {
    FormattedWords(ns);
    LeadingWord("passwd", "--minlen", Formatted(ns));
  }

  lemma FormattedWords(ns: seq<int>)
    ensures forall k :: 0 <= k < |Formatted(ns)| ==> NoSpace(Formatted(ns)[k]) && NoQuote(Formatted(ns)[k])
  {
    forall k | 0 <= k < |ns| ensures NoSpace(Formatted(ns)[k]) && NoQuote(Formatted(ns)[k]) {
      FormatIntWord(ns[k]);
    }
  }

  /** A keyword followed by `--name=value` assignments is a list of words. */
  lemma LeadingWord(keyword: string, name: string, values: seq<string>)
    requires keyword != [] && NoSpace(keyword) && NoQuote(keyword) && name != [] && NoSpace(name) && NoQuote(name)
    requires forall k :: 0 <= k < |values| ==> NoSpace(values[k]) && NoQuote(values[k])
    ensures forall k :: 0 <= k < |[keyword] + Assignments(name, values)| ==>
      ([keyword] + Assignments(name, values))[k] != [] && NoSpace(([keyword] + Assignments(name, values))[k]) && NoQuote(([keyword] + Assignments(name, values))[k])
  {
    AssignmentWords(name, values);
  }

  lemma AssignmentWords(name: string, values: seq<string>)
    requires name != [] && NoSpace(name) && NoQuote(name)
    requires forall k :: 0 <= k < |values| ==> NoSpace(values[k]) && NoQuote(values[k])
    ensures forall k :: 0 <= k < |values| ==>
      Assignments(name, values)[k] != [] && NoSpace(Assignments(name, values)[k]) && NoQuote(Assignments(name, values)[k])
  {
    forall k | 0 <= k < |values|
      ensures Assignments(name, values)[k] != [] && NoSpace(Assignments(name, values)[k]) && NoQuote(Assignments(name, values)[k])
    {
      var token := Assignments(name, values)[k];
      assert token == name + "=" + values[k];
      assert forall i :: 0 <= i < |token| ==> token[i] == (if i < |name| then name[i] else if i == |name| then '=' else values[k][i - |name| - 1]);
    }
  }

  lemma PasswdScan(ns: seq<int>)
    ensures ParsePasswd(PasswdWords(ns)) == Ok(if ns == [] then 0 else ns[|ns| - 1])
  {
    var o := OptionSpec("--minlen", IntValue);
    MinlenConverts(ns);
    PasswdArgs(o, Formatted(ns));
    var occurrences := Values(o, Formatted(ns));
    assert Scan(PasswdGrammar, PasswdWords(ns)) == Ok(ParsedArgs(occurrences, ["passwd"]));
    StoredLast(ns, occurrences);
  }

  lemma StoredLast(ns: seq<int>, occurrences: seq<Occurrence>)
    requires |occurrences| == |ns|
    requires forall k :: 0 <= k < |ns| ==> occurrences[k] == Occurrence("--minlen", Int(ns[k]))
    ensures Stored(occurrences, "--minlen", 0) == if ns == [] then 0 else ns[|ns| - 1]
  {
    if ns != [] {
      assert occurrences[|occurrences| - 1] == Occurrence("--minlen", Int(ns[|ns| - 1]));
    }
  }

  lemma MinlenConverts(ns: seq<int>)
    ensures forall k :: 0 <= k < |ns| ==> Convert(OptionSpec("--minlen", IntValue), Formatted(ns)[k]) == Ok(Int(ns[k]))
  {
    forall k | 0 <= k < |ns| ensures Convert(OptionSpec("--minlen", IntValue), Formatted(ns)[k]) == Ok(Int(ns[k])) {
      ParseIntFormat(ns[k]);
    }
  }

  lemma PasswdArgs(o: OptionSpec, values: seq<string>)
    requires o == OptionSpec("--minlen", IntValue)
    requires forall k :: 0 <= k < |values| ==> Convert(o, values[k]).Ok?
    ensures Scan(PasswdGrammar, ["passwd"] + Assignments(o.name, values)) == Ok(ParsedArgs(Values(o, values), ["passwd"]))
  {
    MinlenOption();
    assert IsPlain(["passwd"][0]);
    ScanLine(PasswdGrammar, o, ["passwd"], values);
  }

  lemma MinlenOption()
    ensures Named(PasswdGrammar, "--minlen") == Some(OptionSpec("--minlen", IntValue))
    ensures IsPrefix("--", "--minlen") && '=' !in "--minlen"
  {
    assert HelpOption.name[2] != "--minlen"[2];
    assert PasswdGrammar[1..] == [OptionSpec("--minlen", IntValue)];
  }

  /** Positional arguments followed by `--name=value` options of one kind. */
  lemma ScanLine(grammar: seq<OptionSpec>, o: OptionSpec, plain: seq<string>, values: seq<string>)
    requires Named(grammar, o.name) == Some(o)
    requires o.valueType == StringValue || o.valueType == IntValue
    requires IsPrefix("--", o.name) && '=' !in o.name
    requires forall k :: 0 <= k < |plain| ==> IsPlain(plain[k])
    requires forall k :: 0 <= k < |values| ==> Convert(o, values[k]).Ok?
    ensures Scan(grammar, plain + Assignments(o.name, values)) == Ok(ParsedArgs(Values(o, values), plain))
  {
    var options := Assignments(o.name, values);
    assert Scan(grammar, []) == Ok(ParsedArgs([], []));
    ScanAssignments(grammar, o, values, []);
    ConcatEmpty(options);
    ScanPlainThen(grammar, plain, options);
    ConcatEmpty(Values(o, values));
    ConcatEmpty(plain);
  }

  /** `package --add=<name> ... --remove=<name> ...`. */
  function PackageWords(adds: seq<string>, removes: seq<string>): seq<string> {
    ["package"] + Assignments("--add", adds) + Assignments("--remove", removes)
  }

  /** A package line adds every --add name to the packages to install and every --remove name to those to exclude. */
  lemma PackageLine(r: Rules, adds: seq<string>, removes: seq<string>)
    requires forall k :: 0 <= k < |adds| ==> NoSpace(adds[k]) && NoQuote(adds[k])
    requires forall k :: 0 <= k < |removes| ==> NoSpace(removes[k]) && NoQuote(removes[k])
    ensures WithRule(r, Join(PackageWords(adds, removes), ' ')) ==
      Ok(r.(add := r.add + (set p | p in adds), remove := r.remove + (set p | p in removes)))
  {
    var ws := PackageWords(adds, removes);
    PackageScan(adds, removes);
    HandlePackage(r, ws, adds, removes);
    PackageWordsAreWords(adds, removes);
    assert ws[0] == "package";
    Dispatch(r, ws, PackageKind);
  }

  lemma HandlePackage(r: Rules, tokens: seq<string>, adds: seq<string>, removes: seq<string>)
    requires ParsePackage(tokens) ==
      Ok(PackageDirective(if adds == [] then None else Some(adds), if removes == [] then None else Some(removes)))
    ensures Handle(r, PackageKind, tokens) ==
      Ok(r.(add := r.add + (set p | p in adds), remove := r.remove + (set p | p in removes)))
  {
    var d := ParsePackage(tokens).value;
    assert Members(d.add) == set p | p in adds;
    assert Members(d.remove) == set p | p in removes;
  }

  lemma PackageWordsAreWords(adds: seq<string>, removes: seq<string>)
    requires forall k :: 0 <= k < |adds| ==> NoSpace(adds[k]) && NoQuote(adds[k])
    requires forall k :: 0 <= k < |removes| ==> NoSpace(removes[k]) && NoQuote(removes[k])
    ensures forall k :: 0 <= k < |PackageWords(adds, removes)| ==>
      PackageWords(adds, removes)[k] != [] && NoSpace(PackageWords(adds, removes)[k]) && NoQuote(PackageWords(adds, removes)[k])
  {
    AssignmentWords("--add", adds);
    AssignmentWords("--remove", removes);
  }

  lemma PackageScan(adds: seq<string>, removes: seq<string>)
    ensures ParsePackage(PackageWords(adds, removes)) ==
      Ok(PackageDirective(if adds == [] then None else Some(adds), if removes == [] then None else Some(removes)))
  {
    var addOption, removeOption := OptionSpec("--add", StringValue), OptionSpec("--remove", StringValue);
    PackageArgs(adds, removes);
    var addOccurrences, removeOccurrences := Values(addOption, adds), Values(removeOption, removes);
    AppendedNone(removeOccurrences, "--add");
    AppendedValues(addOption, adds, removeOccurrences);
    AppendedNone([], "--remove");
    AppendedValues(removeOption, removes, []);
    assert removeOccurrences + [] == removeOccurrences;
    AppendedSkip(addOption, adds, removeOccurrences, "--remove");
  }

  lemma PackageArgs(adds: seq<string>, removes: seq<string>)
    ensures Scan(PackageGrammar, PackageWords(adds, removes)) ==
      Ok(ParsedArgs(Values(OptionSpec("--add", StringValue), adds) + Values(OptionSpec("--remove", StringValue), removes),
                    ["package"]))
  {
    ScanLineTwo(PackageGrammar, OptionSpec("--add", StringValue), OptionSpec("--remove", StringValue), ["package"], adds, removes);
  }

  /** Positional arguments followed by `--name=value` options of two kinds, the first kind first. */
  lemma ScanLineTwo(grammar: seq<OptionSpec>, o: OptionSpec, p: OptionSpec, plain: seq<string>, first: seq<string>, second: seq<string>)
    requires Named(grammar, o.name) == Some(o) && Named(grammar, p.name) == Some(p)
    requires o.valueType == StringValue && p.valueType == StringValue
    requires IsPrefix("--", o.name) && '=' !in o.name && IsPrefix("--", p.name) && '=' !in p.name
    requires forall k :: 0 <= k < |plain| ==> IsPlain(plain[k])
    ensures Scan(grammar, plain + Assignments(o.name, first) + Assignments(p.name, second)) ==
      Ok(ParsedArgs(Values(o, first) + Values(p, second), plain))
  {
    var tail := Assignments(p.name, second);
    ScanLine(grammar, p, [], second);
    ConcatEmpty(tail);
    ScanAssignments(grammar, o, first, tail);
    ScanPlainThen(grammar, plain, Assignments(o.name, first) + tail);
    ConcatAssociates(plain, Assignments(o.name, first), tail);
    ConcatEmpty(plain);
  }

  lemma AppendedNone(occurrences: seq<Occurrence>, name: string)
    requires forall k :: 0 <= k < |occurrences| ==> occurrences[k].name != name
    ensures Appended(occurrences, name) == None
  {
  }

  lemma {:induction false} AppendedValues(o: OptionSpec, values: seq<string>, rest: seq<Occurrence>)
    requires o.valueType == StringValue
    requires Appended(rest, o.name) == None
    ensures Appended(Values(o, values) + rest, o.name) == if values == [] then None else Some(values)
  {
    if values == [] {
      assert Values(o, values) + rest == rest;
    } else {
      var head := Occurrence(o.name, Str(values[0]));
      var later := Values(o, values[1..]);
      assert Values(o, values) == [head] + later;
      ConcatAssociates([head], later, rest);
      AppendedCons(head, later + rest, o.name);
      AppendedValues(o, values[1..], rest);
      HeadTail(values);
    }
  }

  lemma AppendedCons(head: Occurrence, tail: seq<Occurrence>, name: string)
    ensures Appended([head] + tail, name) ==
      if head.name == name && head.value.Str? then
        Some([head.value.s] + (if Appended(tail, name).Some? then Appended(tail, name).value else []))
      else Appended(tail, name)
  {
    assert ([head] + tail)[1..] == tail;
  }

  lemma {:induction false} AppendedSkip(o: OptionSpec, values: seq<string>, rest: seq<Occurrence>, name: string)
    requires o.name != name
    requires forall k :: 0 <= k < |values| ==> Convert(o, values[k]).Ok?
    ensures Appended(Values(o, values) + rest, name) == Appended(rest, name)
  {
    var occurrences := Values(o, values) + rest;
    if values == [] {
      assert occurrences == rest;
    } else {
      assert occurrences[1..] == Values(o, values[1..]) + rest;
      AppendedSkip(o, values[1..], rest, name);
    }
  }

  /** An option text optparse resolves to --passwd: the full name or an abbreviation of at least `--p`. */
  lemma PasswdAbbreviation(flag: string)
    requires 3 <= |flag| && IsPrefix(flag, "--passwd")
    ensures MatchLong(BootloaderGrammar, flag) == Ok(OptionSpec("--passwd", NoValue))
    ensures IsPrefix("--", flag) && flag != "--" && '=' !in flag && NoSpace(flag) && NoQuote(flag)
  {
    PasswdMatch(flag);
    PasswdFlagShape(flag);
  }

  lemma PasswdMatch(flag: string)
    requires 3 <= |flag| && IsPrefix(flag, "--passwd")
    ensures MatchLong(BootloaderGrammar, flag) == Ok(OptionSpec("--passwd", NoValue))
  {
    var passwd := OptionSpec("--passwd", NoValue);
    assert flag[2] == 'p';
    assert flag != HelpOption.name && !IsPrefix(flag, HelpOption.name) by {
      assert HelpOption.name[2] == 'h';
    }
    assert Named(BootloaderGrammar, flag) == if flag == "--passwd" then Some(passwd) else None;
    assert Completions(BootloaderGrammar, flag) == [passwd] by {
      assert BootloaderGrammar == [HelpOption, passwd];
      assert Completions(BootloaderGrammar[1..], flag) == [passwd] + Completions([], flag);
    }
  }

  lemma PasswdFlagShape(flag: string)
    requires 3 <= |flag| && IsPrefix(flag, "--passwd")
    ensures IsPrefix("--", flag) && flag != "--" && '=' !in flag && NoSpace(flag) && NoQuote(flag)
  {
    assert forall i :: 0 <= i < |flag| ==> flag[i] == "--passwd"[i];
  }

  /** A store_true option records one occurrence. */
  lemma ScanFlag(grammar: seq<OptionSpec>, flag: string, o: OptionSpec, tail: seq<string>)
    requires MatchLong(grammar, flag) == Ok(o) && o.valueType == NoValue
    requires IsPrefix("--", flag) && flag != "--" && '=' !in flag
    requires Scan(grammar, tail).Ok?
    ensures Scan(grammar, [flag] + tail) ==
      Ok(ParsedArgs([Occurrence(o.name, Flag)] + Scan(grammar, tail).value.occurrences, Scan(grammar, tail).value.args))
  {
    assert ([flag] + tail)[1..] == tail;
  }

  /** A store_true option given a value is refused. */
  lemma ScanFlagValue(grammar: seq<OptionSpec>, flag: string, value: string, o: OptionSpec, tail: seq<string>)
    requires MatchLong(grammar, flag) == Ok(o) && o.valueType == NoValue
    requires IsPrefix("--", flag) && '=' !in flag
    ensures Scan(grammar, [flag + "=" + value] + tail) == Err(TakesNoValue(o.name))
  {
    var arg := flag + "=" + value;
    SplitAtEqualsOf(flag, value);
    assert arg != "--" && IsPrefix("--", arg) by {
      assert |arg| > 2 && arg[..2] == flag[..2];
    }
  }

  /** `bootloader --passwd`, the option possibly abbreviated, requires a bootloader password. */
  lemma BootloaderPasswd(r: Rules, flag: string)
    requires 3 <= |flag| && IsPrefix(flag, "--passwd")
    ensures WithRule(r, Join(["bootloader", flag], ' ')) == Ok(r.(bootloaderPassword := true))
  {
    var ws := ["bootloader", flag];
    BootloaderPasswdArgs(flag);
    BootloaderFlagWords(flag);
    BootloaderLine(r, ws, true);
  }

  lemma BootloaderFlagWords(flag: string)
    requires 3 <= |flag| && IsPrefix(flag, "--passwd")
    ensures var ws := ["bootloader", flag];
      forall k :: 0 <= k < |ws| ==> ws[k] != [] && NoSpace(ws[k]) && NoQuote(ws[k])
  {
    PasswdAbbreviation(flag);
    assert NoSpace("bootloader") && NoQuote("bootloader");
  }

  lemma BootloaderPasswdArgs(flag: string)
    requires 3 <= |flag| && IsPrefix(flag, "--passwd")
    ensures ParseBootloader(["bootloader", flag]) == Ok(true)
  {
    PasswdAbbreviation(flag);
    assert Scan(BootloaderGrammar, []) == Ok(ParsedArgs([], []));
    ScanFlag(BootloaderGrammar, flag, OptionSpec("--passwd", NoValue), []);
    assert [flag] + [] == [flag];
    ScanPlainThen(BootloaderGrammar, ["bootloader"], [flag]);
    assert ["bootloader"] + [flag] == ["bootloader", flag];
    var occurrences := [Occurrence("--passwd", Flag)];
    assert occurrences + [] == occurrences;
    assert occurrences[0].name == "--passwd";
  }

  /** A bootloader line without --passwd leaves the rules as they are. */
  lemma BootloaderPlain(r: Rules, args: seq<string>)
    requires forall k :: 0 <= k < |args| ==> args[k] != [] && NoSpace(args[k]) && NoQuote(args[k]) && IsPlain(args[k])
    ensures WithRule(r, Join(["bootloader"] + args, ' ')) == Ok(r)
  {
    BootloaderWords(args);
    BootloaderPlainArgs(args);
    BootloaderLine(r, ["bootloader"] + args, false);
  }

  /** A bootloader line of words goes to the bootloader handler, which sets the flag or keeps the rules. */
  lemma BootloaderLine(r: Rules, ws: seq<string>, passwd: bool)
    requires |ws| >= 1 && ws[0] == "bootloader"
    requires forall k :: 0 <= k < |ws| ==> ws[k] != [] && NoSpace(ws[k]) && NoQuote(ws[k])
    requires ParseBootloader(ws) == Ok(passwd)
    ensures WithRule(r, Join(ws, ' ')) == Ok(if passwd then r.(bootloaderPassword := true) else r)
  {
    Dispatch(r, ws, BootloaderKind);
    HandleBootloader(r, ws, passwd);
  }

  /** A line of words whose first word names a handler is read by that handler. */
  lemma Dispatch(r: Rules, ws: seq<string>, kind: Kind)
    requires |ws| >= 1 && KindOf(ws[0]) == Some(kind)
    requires forall k :: 0 <= k < |ws| ==> ws[k] != [] && NoSpace(ws[k]) && NoQuote(ws[k])
    ensures WithRule(r, Join(ws, ' ')) == Handle(r, kind, ws)
  {
    ReadLine(r, ws);
  }

  lemma HandleBootloader(r: Rules, tokens: seq<string>, passwd: bool)
    requires ParseBootloader(tokens) == Ok(passwd)
    ensures Handle(r, BootloaderKind, tokens) == Ok(if passwd then r.(bootloaderPassword := true) else r)
  {
  }

  lemma BootloaderWords(args: seq<string>)
    requires forall k :: 0 <= k < |args| ==> args[k] != [] && NoSpace(args[k]) && NoQuote(args[k])
    ensures forall k :: 0 <= k < |["bootloader"] + args| ==> (["bootloader"] + args)[k] != [] && NoSpace((["bootloader"] + args)[k]) && NoQuote((["bootloader"] + args)[k])
  {
    assert NoSpace("bootloader") && NoQuote("bootloader");
  }

  lemma BootloaderPlainArgs(args: seq<string>)
    requires forall k :: 0 <= k < |args| ==> IsPlain(args[k])
    ensures ParseBootloader(["bootloader"] + args) == Ok(false)
  {
    assert Scan(BootloaderGrammar, []) == Ok(ParsedArgs([], []));
    ScanPlainThen(BootloaderGrammar, ["bootloader"] + args, []);
    assert ["bootloader"] + args + [] == ["bootloader"] + args;
  }

  /** --passwd takes no value: `bootloader --passwd=<v>` is refused. */
  lemma BootloaderPasswdValue(r: Rules, flag: string, value: string)
    requires 3 <= |flag| && IsPrefix(flag, "--passwd") && NoSpace(value) && NoQuote(value)
    ensures WithRule(r, Join(["bootloader", flag + "=" + value], ' ')) == Err(BadDirective(TakesNoValue("--passwd")))
  {
    var ws := ["bootloader", flag + "=" + value];
    BootloaderValueArgs(flag, value);
    HandleBootloaderRefused(r, ws, TakesNoValue("--passwd"));
    BootloaderValueWords(flag, value);
    assert ws[0] == "bootloader";
    Dispatch(r, ws, BootloaderKind);
  }

  lemma HandleBootloaderRefused(r: Rules, tokens: seq<string>, e: ParseError)
    requires ParseBootloader(tokens) == Err(BadDirective(e))
    ensures Handle(r, BootloaderKind, tokens) == Err(BadDirective(e))
  {
  }

  lemma BootloaderValueWords(flag: string, value: string)
    requires 3 <= |flag| && IsPrefix(flag, "--passwd") && NoSpace(value) && NoQuote(value)
    ensures var ws := ["bootloader", flag + "=" + value];
      forall k :: 0 <= k < |ws| ==> ws[k] != [] && NoSpace(ws[k]) && NoQuote(ws[k])
  {
    PasswdAbbreviation(flag);
    AssignmentWords(flag, [value]);
    assert Assignments(flag, [value])[0] == flag + "=" + value;
    assert NoSpace("bootloader") && NoQuote("bootloader");
  }

  lemma BootloaderValueArgs(flag: string, value: string)
    requires 3 <= |flag| && IsPrefix(flag, "--passwd")
    ensures ParseBootloader(["bootloader", flag + "=" + value]) == Err(BadDirective(TakesNoValue("--passwd")))
  {
    PasswdAbbreviation(flag);
    ScanFlagValue(BootloaderGrammar, flag, value, OptionSpec("--passwd", NoValue), []);
    assert ["bootloader", flag + "=" + value][1..] == [flag + "=" + value] + [];
  }

  /**
   * Any part line whose options scan but leave fewer than two positional arguments (no mount
   * point after "part") is refused with MissingMountPoint, whatever form its options take.
   */
  lemma PartRefusedWithoutMountPoint(r: Rules, line: string)
    requires WordPrefix(Strip(line)) == "part" && NoQuote(line)
    requires Scan(PartGrammar, Words(Strip(line))).Ok?
    requires |Scan(PartGrammar, Words(Strip(line))).value.args| < 2
    ensures WithRule(r, line) == Err(MissingMountPoint)
  {
    assert KindOf(WordPrefix(Strip(line))) == Some(PartKind);
  }

  /**
   * shlex keeps a vertical tab inside a word, although str.split() splits the first word
   * there: "part\v/tmp" reaches the part handler as the single token "part\v/tmp", which has
   * no mount point.
   */
  lemma PartVerticalTab(r: Rules, mountPoint: string)
    requires mountPoint != [] && NoShlexSpace(mountPoint) && NoQuote(mountPoint) && !IsSpace(mountPoint[|mountPoint| - 1])
    ensures WithRule(r, "part" + "\U{000B}" + mountPoint) == Err(MissingMountPoint)
  {
    VerticalTabWords(mountPoint);
    PartSingleToken(r, "part" + "\U{000B}" + mountPoint, "part" + "\U{000B}" + mountPoint);
  }

  /** A part line that shlex reads as one token has no mount point. */
  lemma PartSingleToken(r: Rules, line: string, token: string)
    requires WordPrefix(Strip(line)) == "part" && NoQuote(line) && Words(Strip(line)) == [token] && IsPlain(token)
    ensures WithRule(r, line) == Err(MissingMountPoint)
  {
    ScanOne(PartGrammar, token);
    PartRefusedWithoutMountPoint(r, line);
  }

  /** The words of "part\v<mount point>": str.split() stops at the tab, shlex does not. */
  lemma VerticalTabWords(mountPoint: string)
    requires mountPoint != [] && NoShlexSpace(mountPoint) && NoQuote(mountPoint) && !IsSpace(mountPoint[|mountPoint| - 1])
    ensures var line := "part" + "\U{000B}" + mountPoint;
      Strip(line) == line && WordPrefix(line) == "part" && NoQuote(line) && Words(line) == [line] && IsPlain(line)
  {
    var rest := "\U{000B}" + mountPoint;
    var line := "part" + rest;
    assert line == "part" + "\U{000B}" + mountPoint;
    assert line[0] == 'p' && line[|line| - 1] == mountPoint[|mountPoint| - 1];
    StripUnchanged(line);
    WordPrefixOfWord("part", rest);
    assert NoShlexSpace(line) && NoQuote(line) by {
      forall i | 0 <= i < |line| ensures !IsShlexSpace(line[i]) && !IsQuoting(line[i]) {
        if i >= 5 { assert line[i] == mountPoint[i - 5]; }
      }
    }
    TokenPrefixOfWord(line, []);
    assert line + [] == line;
  }

  /** A part line whose options are all `--mountoptions=<list>` tokens and that has no mount point is refused. */
  lemma PartWithoutMountPoint(r: Rules, lists: seq<seq<string>>)
    requires forall i :: 0 <= i < |lists| ==>
      forall k :: 0 <= k < |lists[i]| ==> IsCsvItem(lists[i][k]) && NoSpace(lists[i][k]) && NoQuote(lists[i][k])
    ensures WithRule(r, Join(["part"] + Assignments("--mountoptions", CsvValues(lists)), ' ')) == Err(MissingMountPoint)
  {
    OptionWords(["part"], lists);
    assert (["part"] + Assignments("--mountoptions", CsvValues(lists)))[0] == "part";
    Dispatch(r, ["part"] + Assignments("--mountoptions", CsvValues(lists)), PartKind);
    PartScanWithout(lists);
    HandlePartRefused(r, ["part"] + Assignments("--mountoptions", CsvValues(lists)), MissingMountPoint);
  }

  lemma HandlePartRefused(r: Rules, tokens: seq<string>, e: RuleError)
    requires ParsePart(tokens) == Err(e)
    ensures Handle(r, PartKind, tokens) == Err(e)
  {
  }

  lemma OptionWords(plain: seq<string>, lists: seq<seq<string>>)
    requires forall k :: 0 <= k < |plain| ==> plain[k] != [] && NoSpace(plain[k]) && NoQuote(plain[k])
    requires forall i :: 0 <= i < |lists| ==> forall k :: 0 <= k < |lists[i]| ==> NoSpace(lists[i][k]) && NoQuote(lists[i][k])
    ensures var ws := plain + Assignments("--mountoptions", CsvValues(lists));
      forall k :: 0 <= k < |ws| ==> ws[k] != [] && NoSpace(ws[k]) && NoQuote(ws[k])
  {
    var values := CsvValues(lists);
    forall k | 0 <= k < |values| ensures NoSpace(values[k]) && NoQuote(values[k]) {
      JoinWord(lists[k], ',');
    }
    AssignmentWords("--mountoptions", values);
  }

  lemma PartScanWithout(lists: seq<seq<string>>)
    ensures ParsePart(["part"] + Assignments("--mountoptions", CsvValues(lists))) == Err(MissingMountPoint)
  {
    ScanLine(PartGrammar, OptionSpec("--mountoptions", StringValue), ["part"], CsvValues(lists));
  }
}
