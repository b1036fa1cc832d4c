/**
 * The directive grammars. A directive line, already split into tokens, is read against a
 * small option table in the manner of Python's optparse: long options with unique-prefix
 * abbreviation, `--opt=value` or `--opt value`, `--` ending the options, positional
 * arguments allowed anywhere, and the `-h`/`--help` option every parser carries.
 */
module Grammar {
  import opened Wrappers
  import opened Text

  /** How an option treats the text after it. */
  datatype ValueType =
    | NoValue      // action "store_true"
    | StringValue  // a value of type "string" (actions "append" and "callback")
    | IntValue     // a value of type "int" (action "store")
    | ShowsHelp    // the help option: prints usage and exits

  datatype OptionSpec = OptionSpec(name: string, valueType: ValueType)

  datatype Value = Flag | Str(s: string) | Int(i: int)

  /** One use of an option on the line, under the option's full name. */
  datatype Occurrence = Occurrence(name: string, value: Value)

  /** What optparse's parse_args hands back: the options met, in order, and the positional arguments. */
  datatype ParsedArgs = ParsedArgs(occurrences: seq<Occurrence>, args: seq<string>)

  /** The ways optparse rejects a line (it prints the reason and exits the process). */
  datatype ParseError =
    | NoSuchOption(option: string)
    | AmbiguousOption(option: string)
    | MissingValue(option: string)
    | TakesNoValue(option: string)
    | InvalidInteger(option: string, text: string)
    | HelpRequested

  /** Why a rule line was refused. */
  datatype RuleError =
    | UnknownRule(word: string)      // UknownRuleError
    | BadDirective(reason: ParseError)
    | MissingMountPoint              // the IndexError of a `part` line without a mount point

  const HelpOption := OptionSpec("--help", ShowsHelp)
  const PartGrammar: seq<OptionSpec> := [HelpOption, OptionSpec("--mountoptions", StringValue)]
  const PasswdGrammar: seq<OptionSpec> := [HelpOption, OptionSpec("--minlen", IntValue)]
  const PackageGrammar: seq<OptionSpec> :=
    [HelpOption, OptionSpec("--add", StringValue), OptionSpec("--remove", StringValue)]
  const BootloaderGrammar: seq<OptionSpec> := [HelpOption, OptionSpec("--passwd", NoValue)]

  predicate IsPrefix(p: string, s: string) {
    |p| <= |s| && s[..|p|] == p
  }

  function Named(grammar: seq<OptionSpec>, name: string): (r: Option<OptionSpec>)
    ensures r.Some? ==> r.value in grammar && r.value.name == name
    ensures r.None? ==> forall o :: o in grammar ==> o.name != name
  {
    if grammar == [] then None
    else if grammar[0].name == name then Some(grammar[0])
    else Named(grammar[1..], name)
  }

  function Completions(grammar: seq<OptionSpec>, prefix: string): (r: seq<OptionSpec>)
    ensures forall o :: o in r <==> o in grammar && IsPrefix(prefix, o.name)
  {
    if grammar == [] then []
    else (if IsPrefix(prefix, grammar[0].name) then [grammar[0]] else []) + Completions(grammar[1..], prefix)
  }

  /**
   * The option a long option text stands for: the option of exactly that name, or else the
   * only option whose name it abbreviates.
   */
  function MatchLong(grammar: seq<OptionSpec>, opt: string): (r: Result<OptionSpec, ParseError>)
    ensures r.Ok? ==> r.value in grammar && IsPrefix(opt, r.value.name)
    ensures Named(grammar, opt).Some? ==> r == Ok(Named(grammar, opt).value)
    ensures r.Err? <==> Named(grammar, opt).None? && |Completions(grammar, opt)| != 1
    ensures r.Err? ==> r.error == (if Completions(grammar, opt) == [] then NoSuchOption(opt) else AmbiguousOption(opt))
  {
    match Named(grammar, opt)
    case Some(o) => Ok(o)
    case None =>
      var candidates := Completions(grammar, opt);
      if |candidates| == 1 then Ok(candidates[0])
      else if candidates == [] then Err(NoSuchOption(opt))
      else Err(AmbiguousOption(opt))
  }

  /** `--name=value` split at its first '='; no value when there is no '='. */
  function SplitAtEquals(arg: string): (r: (string, Option<string>))
    ensures r.1.None? ==> r.0 == arg && '=' !in arg
    ensures r.1.Some? ==> arg == r.0 + "=" + r.1.value && '=' !in r.0
  {
    if arg == [] then (arg, None)
    else if arg[0] == '=' then ([], Some(arg[1..]))
    else
      var t := SplitAtEquals(arg[1..]);
      assert arg == [arg[0]] + arg[1..];
      ([arg[0]] + t.0, t.1)
  }

  /** The digit a character stands for in Python's int(): 0-9, then a/A = 10 up to z/Z = 35. */
  function DigitOf(c: char): nat {
    if '0' <= c <= '9' then (c as int) - ('0' as int)
    else if 'a' <= c <= 'z' then (c as int) - ('a' as int) + 10
    else if 'A' <= c <= 'Z' then (c as int) - ('A' as int) + 10
    else 36
  }

  predicate IsNumeral(ds: string, radix: nat) {
    ds != [] && forall i :: 0 <= i < |ds| ==> DigitOf(ds[i]) < radix
  }

  function NumeralValue(ds: string, radix: nat): nat {
    if ds == [] then 0 else NumeralValue(ds[..|ds| - 1], radix) * radix + DigitOf(ds[|ds| - 1])
  }

  function Numeral(ds: string, radix: nat): Option<int> {
    if IsNumeral(ds, radix) then Some(NumeralValue(ds, radix)) else None
  }

  /** Python's int(text, radix) without surrounding whitespace: an optional sign, then digits. */
  function SignedNumeral(text: string, radix: nat): (n: Option<int>)
    ensures n.Some? ==> text != []
    ensures n.Some? && n.value < 0 ==> text[0] == '-'
  {
    if text != [] && text[0] == '-' then
      match Numeral(text[1..], radix)
      case Some(n) => Some(-n)
      case None => None
    else if text != [] && text[0] == '+' then Numeral(text[1..], radix)
    else Numeral(text, radix)
  }

  /**
   * optparse's conversion of an "int" option value: a 0x prefix selects hexadecimal, any
   * other leading 0 octal, and everything else is a signed decimal. A 0b prefix is removed
   * and the rest, "0" if nothing is left, is read as binary, and that may carry a sign.
   */
  function ParseInt(text: string): (n: Option<int>)
    ensures n.Some? ==> text != []
    ensures n.Some? && n.value < 0 ==> text[0] == '-' || (|text| > 2 && IsBinaryPrefix(text) && text[2] == '-')
  {
    if |text| >= 2 && text[0] == '0' && (text[1] == 'x' || text[1] == 'X') then Numeral(text[2..], 16)
    else if IsBinaryPrefix(text) then SignedNumeral(if |text| == 2 then "0" else text[2..], 2)
    else if text != [] && text[0] == '0' then Numeral(text, 8)
    else SignedNumeral(text, 10)
  }

  predicate IsBinaryPrefix(text: string) {
    |text| >= 2 && text[0] == '0' && (text[1] == 'b' || text[1] == 'B')
  }

  /** After a 0b prefix, int(val, 2) takes a sign: 0b-1 is -1 and 0b+1010 is 10. */
  lemma ParseSignedBinary(bits: string)
    requires IsNumeral(bits, 2)
    ensures ParseInt("0b-" + bits) == Some(-(NumeralValue(bits, 2) as int))
    ensures ParseInt("0b+" + bits) == Some(NumeralValue(bits, 2))
  {
    SignedBinary("0b-" + bits, '-', bits);
    SignedBinary("0b+" + bits, '+', bits);
  }

  lemma SignedBinary(text: string, sign: char, bits: string)
    requires text == "0b" + [sign] + bits && IsNumeral(bits, 2)
    requires sign == '-' || sign == '+'
    ensures ParseInt(text) == Some(if sign == '-' then -(NumeralValue(bits, 2) as int) else NumeralValue(bits, 2))
  {
    assert IsBinaryPrefix(text) && text[1] != 'x' && text[1] != 'X';
    assert text[2..][0] == sign && text[2..][1..] == bits;
  }

  function DigitChar(d: nat): (c: char)
    requires d < 10
    ensures '0' <= c <= '9' && DigitOf(c) == d
  {
    (('0' as int) + d) as char
  }

  /** "%d" of a natural number; reading it back as a decimal numeral gives the number. */
  function FormatNat(n: nat): (s: string)
    ensures IsNumeral(s, 10) && NumeralValue(s, 10) == n
    ensures n > 0 ==> s[0] != '0'
    ensures s[0] != '-' && s[0] != '+'
  {
    if n < 10 then [DigitChar(n)]
    else
      var s := FormatNat(n / 10) + [DigitChar(n % 10)];
      assert s[..|s| - 1] == FormatNat(n / 10);
      s
  }

  /** "%d" of an integer. */
  function FormatInt(n: int): string {
    if n < 0 then "-" + FormatNat(-n) else FormatNat(n)
  }

  /** An integer written with "%d" is read back as the same integer. */
  lemma ParseIntFormat(n: int)
    ensures ParseInt(FormatInt(n)) == Some(n)
  {
    if n < 0 {
      ParseNegativeFormat(n);
    } else if n == 0 {
      ParseZeroFormat();
    } else {
      ParsePositiveFormat(n);
    }
  }

  lemma ParseNegativeFormat(n: int)
    requires n < 0
    ensures ParseInt(FormatInt(n)) == Some(n)
  {
    assert FormatInt(n)[1..] == FormatNat(-n);
  }

  lemma ParseZeroFormat()
    ensures ParseInt(FormatInt(0)) == Some(0)
  {
    assert FormatInt(0) == "0";
    assert NumeralValue("0", 8) == 0 by { assert "0"[..0] == []; }
  }

  lemma ParsePositiveFormat(n: int)
    requires n > 0
    ensures ParseInt(FormatInt(n)) == Some(n)
  {
    assert FormatInt(n) == FormatNat(n);
  }

  function Convert(option: OptionSpec, text: string): Result<Value, ParseError> {
    if option.valueType == IntValue then
      match ParseInt(text)
      case Some(n) => Ok(Int(n))
      case None => Err(InvalidInteger(option.name, text))
    else Ok(Str(text))
  }

  /** optparse's parse_args over a list of tokens, for one option table. */
  function Scan(grammar: seq<OptionSpec>, tokens: seq<string>): (r: Result<ParsedArgs, ParseError>)
    decreases |tokens|
  {
    if tokens == [] then Ok(ParsedArgs([], []))
    else
      var arg := tokens[0];
      if arg == "--" then Ok(ParsedArgs([], tokens[1..]))
      else if IsPrefix("--", arg) then
        var split := SplitAtEquals(arg);
        var option :- MatchLong(grammar, split.0);
        var explicit := split.1;
        match option.valueType
        case ShowsHelp =>
          if explicit.Some? then Err(TakesNoValue(option.name)) else Err(HelpRequested)
        case NoValue =>
          if explicit.Some? then Err(TakesNoValue(option.name))
          else
            var rest :- Scan(grammar, tokens[1..]);
            Ok(ParsedArgs([Occurrence(option.name, Flag)] + rest.occurrences, rest.args))
        case _ =>
          if explicit.None? && |tokens| < 2 then Err(MissingValue(option.name))
          else
            var text := if explicit.Some? then explicit.value else tokens[1];
            var next := if explicit.Some? then 1 else 2;
            var value :- Convert(option, text);
            var rest :- Scan(grammar, tokens[next..]);
            Ok(ParsedArgs([Occurrence(option.name, value)] + rest.occurrences, rest.args))
      else if |arg| > 1 && arg[0] == '-' then
        // short options: the only one defined is -h
        if arg[1] == 'h' then Err(HelpRequested) else Err(NoSuchOption(['-', arg[1]]))
      else
        var rest :- Scan(grammar, tokens[1..]);
        Ok(ParsedArgs(rest.occurrences, [arg] + rest.args))
  }

  /**
   * What parse_args hands back is made of the line: no more options and positional
   * arguments than words, every recorded option one of the table's, under its full name,
   * and every positional argument a word of the line.
   */
  lemma {:induction false} ScanShape(grammar: seq<OptionSpec>, tokens: seq<string>)
    requires Scan(grammar, tokens).Ok?
    ensures var p := Scan(grammar, tokens).value; |p.occurrences| + |p.args| <= |tokens|
    ensures var p := Scan(grammar, tokens).value;
      forall k :: 0 <= k < |p.occurrences| ==> Named(grammar, p.occurrences[k].name).Some?
    ensures var p := Scan(grammar, tokens).value; forall k :: 0 <= k < |p.args| ==> p.args[k] in tokens
    decreases |tokens|
  {
    if tokens != [] && tokens[0] != "--" {
      var arg := tokens[0];
      if IsPrefix("--", arg) {
        var split := SplitAtEquals(arg);
        var m := MatchLong(grammar, split.0);
        if m.value.valueType == NoValue {
          ScanShape(grammar, tokens[1..]);
        } else {
          var next := if split.1.Some? then 1 else 2;
          ScanShape(grammar, tokens[next..]);
        }
      } else {
        ScanShape(grammar, tokens[1..]);
      }
    }
  }

  /** A token optparse takes as a positional argument. */
  predicate IsPlain(token: string) {
    token == [] || token[0] != '-' || token == "-"
  }

  /** A line of positional arguments only is returned as it is. */
  lemma {:induction false} ScanPlain(grammar: seq<OptionSpec>, tokens: seq<string>)
    requires forall k :: 0 <= k < |tokens| ==> IsPlain(tokens[k])
    ensures Scan(grammar, tokens) == Ok(ParsedArgs([], tokens))
  {
    if tokens != [] {
      var arg := tokens[0];
      assert IsPlain(arg);
      assert arg != "--" && !IsPrefix("--", arg) && !(|arg| > 1 && arg[0] == '-') by {
        if arg != [] && arg[0] == '-' { assert arg == "-"; }
      }
      ScanPlain(grammar, tokens[1..]);
      assert [arg] + tokens[1..] == tokens;
    }
  }

  /** A single positional argument is returned as it is. */
  lemma ScanOne(grammar: seq<OptionSpec>, token: string)
    requires IsPlain(token)
    ensures Scan(grammar, [token]) == Ok(ParsedArgs([], [token]))
  {
    ScanPlain(grammar, [token]);
  }

  predicate IsCsvItem(s: string) {
    s != [] && ',' !in s
  }

  function NonEmpty(parts: seq<string>): (r: seq<string>)
    ensures forall k :: 0 <= k < |r| ==> r[k] != [] && r[k] in parts
  {
    if parts == [] then []
    else (if parts[0] == [] then [] else [parts[0]]) + NonEmpty(parts[1..])
  }

  /** parse_csv: the comma-separated items of a value, in order, empty items dropped. */
  function ParseCsv(value: string): (items: seq<string>)
    ensures forall k :: 0 <= k < |items| ==> IsCsvItem(items[k])
  {
    var parts := Split(value, ',');
    var items := NonEmpty(parts);
    assert forall k :: 0 <= k < |items| ==> items[k] in parts;
    items
  }

  lemma {:induction false} NonEmptyKeeps(parts: seq<string>)
    requires forall k :: 0 <= k < |parts| ==> parts[k] != []
    ensures NonEmpty(parts) == parts
  {
    if parts != [] {
      NonEmptyKeeps(parts[1..]);
      assert [parts[0]] + parts[1..] == parts;
    }
  }

  /** Reading a comma-joined list drops exactly its empty pieces and keeps the order of the rest. */
  lemma ParseCsvJoin(parts: seq<string>)
    requires |parts| >= 1
    requires forall k :: 0 <= k < |parts| ==> ',' !in parts[k]
    ensures ParseCsv(Join(parts, ',')) == NonEmpty(parts)
  {
    SplitJoin(parts, ',');
  }

  /** parse_csv gives back a list of mount options written with ",".join. */
  lemma ParseCsvRoundTrip(items: seq<string>)
    requires forall k :: 0 <= k < |items| ==> IsCsvItem(items[k])
    ensures ParseCsv(Join(items, ',')) == items
  {
    if items != [] {
      ParseCsvJoin(items);
      NonEmptyKeeps(items);
    }
  }

  /** Every `--mountoptions` value, read with parse_csv, accumulated into one list. */
  function MountOptions(occurrences: seq<Occurrence>): (options: seq<string>)
    ensures forall k :: 0 <= k < |options| ==> IsCsvItem(options[k])
  {
    if occurrences == [] then []
    else
      var o := occurrences[0];
      (if o.name == "--mountoptions" && o.value.Str? then ParseCsv(o.value.s) else [])
        + MountOptions(occurrences[1..])
  }

  /** The values of an "append" option, in order; None when it never occurs. */
  function Appended(occurrences: seq<Occurrence>, name: string): (r: Option<seq<string>>)
    ensures r.Some? ==> r.value != []
  {
    if occurrences == [] then None
    else
      var rest := Appended(occurrences[1..], name);
      var o := occurrences[0];
      if o.name == name && o.value.Str? then
        Some([o.value.s] + (if rest.Some? then rest.value else []))
      else rest
  }

  /** The value of a "store" option of type int: its last occurrence, else the default. */
  function Stored(occurrences: seq<Occurrence>, name: string, default: int): (r: int)
    ensures (forall k :: 0 <= k < |occurrences| ==> occurrences[k].name != name) ==> r == default
    ensures r == default || exists k :: 0 <= k < |occurrences| && occurrences[k] == Occurrence(name, Int(r))
  {
    if occurrences == [] then default
    else
      var o := occurrences[|occurrences| - 1];
      if o.name == name && o.value.Int? then o.value.i
      else Stored(occurrences[..|occurrences| - 1], name, default)
  }

  /** Whether a "store_true" option occurs. */
  predicate Flagged(occurrences: seq<Occurrence>, name: string) {
    exists k :: 0 <= k < |occurrences| && occurrences[k].name == name
  }

  function Lift(r: Result<ParsedArgs, ParseError>): Result<ParsedArgs, RuleError> {
    match r
    case Ok(p) => Ok(p)
    case Err(e) => Err(BadDirective(e))
  }

  datatype PartDirective = PartDirective(mountPoint: string, mountOptions: seq<string>)

  /** The tokens of a `part` line: the mount point is the second positional argument. */
  function ParsePart(tokens: seq<string>): (r: Result<PartDirective, RuleError>)
    ensures r.Ok? ==> forall k :: 0 <= k < |r.value.mountOptions| ==> IsCsvItem(r.value.mountOptions[k])
    ensures r.Ok? <==> Scan(PartGrammar, tokens).Ok? && |Scan(PartGrammar, tokens).value.args| >= 2
    ensures r.Err? && Scan(PartGrammar, tokens).Ok? ==> r.error == MissingMountPoint
    ensures r.Err? && Scan(PartGrammar, tokens).Err? ==> r.error == BadDirective(Scan(PartGrammar, tokens).error)
  {
    var parsed :- Lift(Scan(PartGrammar, tokens));
    if |parsed.args| < 2 then Err(MissingMountPoint)
    else Ok(PartDirective(parsed.args[1], MountOptions(parsed.occurrences)))
  }

  /** The tokens of a `passwd` line: the minimal length, 0 when not given. */
  function ParsePasswd(tokens: seq<string>): (r: Result<int, RuleError>)
    ensures r.Ok? <==> Scan(PasswdGrammar, tokens).Ok?
    ensures r.Err? ==> r.error == BadDirective(Scan(PasswdGrammar, tokens).error)
  {
    var parsed :- Lift(Scan(PasswdGrammar, tokens));
    Ok(Stored(parsed.occurrences, "--minlen", 0))
  }

  datatype PackageDirective = PackageDirective(add: Option<seq<string>>, remove: Option<seq<string>>)

  /** The tokens of a `package` line: the packages to add and to remove, each None when absent. */
  function ParsePackage(tokens: seq<string>): (r: Result<PackageDirective, RuleError>)
    ensures r.Ok? <==> Scan(PackageGrammar, tokens).Ok?
    ensures r.Err? ==> r.error == BadDirective(Scan(PackageGrammar, tokens).error)
  {
    var parsed :- Lift(Scan(PackageGrammar, tokens));
    Ok(PackageDirective(Appended(parsed.occurrences, "--add"), Appended(parsed.occurrences, "--remove")))
  }

  /** The tokens of a `bootloader` line: whether --passwd is present. */
  function ParseBootloader(tokens: seq<string>): (r: Result<bool, RuleError>)
    ensures r.Ok? <==> Scan(BootloaderGrammar, tokens).Ok?
    ensures r.Err? ==> r.error == BadDirective(Scan(BootloaderGrammar, tokens).error)
  {
    var parsed :- Lift(Scan(BootloaderGrammar, tokens));
    Ok(Flagged(parsed.occurrences, "--passwd"))
  }
}
