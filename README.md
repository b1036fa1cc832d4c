# Pre-installation rule handling of the OSCAP Anaconda add-on, in Dafny

This project models `org_fedora_oscap/rule_handling.py`. That module reads the
pre-installation rules a security profile asks for (lines such as
`part /tmp --mountoptions=nodev,noexec`, `passwd --minlen=14`,
`package --add=aide --remove=telnet`, `bootloader --passwd`). It collects them into four
rule sets and evaluates them against the installation plan. Evaluation returns
severity-tagged messages and, unless it only reports, it also repairs the plan. It adds
missing mount options to the planned mount points, and packages to the kickstart install
and exclude lists.

Layout, one module per file:

- `wrappers.dfy` (`Wrappers`): `Option`, `Result` and `Outcome`.
- `seqs.dfy` (`Seqs`):
  - lists used as ordered sets: `NoDuplicates`;
  - "append unless present" (`AppendAbsent`), as `add_mount_options` and the package
    lists do;
  - `IsOrdering`, one possible iteration order of a Python set or dict.
- `text.dfy` (`Text`): Python 2's `str.strip()`, the first word of `str.split()`,
  `shlex.split()` of an unquoted line, `str.split(sep)` and `sep.join`.
- `grammar.dfy` (`Grammar`):
  - the four option tables;
  - an optparse-style scanner over the words of a line;
  - `%d` integers and `parse_csv`;
  - the four directive parsers.
- `messages.dfy` (`Messages`): `Message(severity, subject)`.
- `system.dfy` (`SystemState`): the two parts of the plan the rules touch. These are
  `Storage.mountpoints` (mount point → options string) and `PackageSelection`
  (`packageList`, `excludedList`).
- `partitions.dfy`, `passwords.dfy`, `packages.dfy`, `bootloader.dfy`: the four rule
  classes.
  - Each is a Dafny `class` whose methods update its fields in place.
  - Each is proved against pure specification functions (`Missing`, `Fix`, `PartMessages`,
    `Applied`, `PasswdMessages`, `InstallMessages`, `ExcludeMessages`).
- `rule_spec.dfy` (`RuleSpec`): the whole rule set as a value.
  - Reading a line: `WithRule`.
  - The messages of one evaluation: `Report`.
  - The plan after an evaluation: `Evaluated`.
  - Lemmas relating them.
- `rule_handling.dfy` (`RuleHandling`): the `RuleData` class. Its `NewRule` and
  `EvalRules` are proved to follow `WithRule`, `Report` and `Evaluated`.
- `directives.dfy` (`Directives`): lines as a profile writes them (words separated by
  single spaces, values given as `--name=value`), read back through the whole model.

Python sets and dicts are iterated in an unspecified order. The evaluation methods
therefore return that order as a ghost out-parameter. Every property is stated for any
such order.

Three behaviours of the code that the model keeps as written:
- A `part` line without a mount point fails with an uncaught index error
  (`rule_handling.py:171`). It is not reported as an unknown rule.
- In apply mode each missing option is appended as `",opt"`, even to an empty options
  string.
- Package messages are produced on every evaluation, even when the lists already hold the
  packages.

## Model

| member | source | states |
|---|---|---|
| Text.Strip | org_fedora_oscap/rule_handling.py:142-144 | the stripped line is empty exactly when the line is all whitespace, and otherwise starts and ends with a non-space |
| Text.StripIsSlice | org_fedora_oscap/rule_handling.py:142 | the stripped line is a slice of the line, and everything before and after it is whitespace |
| Text.Words | org_fedora_oscap/rule_handling.py:167 | `shlex.split` of an unquoted line gives non-empty tokens without shlex whitespace (space, tab, CR, LF); a vertical tab or form feed stays inside its token |
| Text.WordsJoin | org_fedora_oscap/rule_handling.py:167 | splitting words joined by single spaces gives the same words back |
| Text.Split | org_fedora_oscap/rule_handling.py:303 | `s.split(sep)` has at least one piece, no piece holds `sep`, and joining the pieces with `sep` gives `s` back |
| Text.SplitJoin | org_fedora_oscap/rule_handling.py:40 | splitting a `sep`-joined list of pieces without `sep` gives the pieces back |
| Grammar.MatchLong | org_fedora_oscap/rule_handling.py:44-61 | a long option resolves to the option of that exact name, else to the only option it abbreviates; no match gives NoSuchOption and several give AmbiguousOption |
| Grammar.SplitAtEquals | org_fedora_oscap/rule_handling.py:44-61 | `--name=value` splits at its first `=`, and without `=` the whole text is the name |
| Grammar.Scan | org_fedora_oscap/rule_handling.py:44-61 | optparse's `parse_args` for one of the four option tables; what it returns is stated by `Grammar.ScanShape`, `Grammar.ScanPlain` and the `Directives.Scan*` lemmas |
| Grammar.ScanShape | org_fedora_oscap/rule_handling.py:44-61 | a parsed line records no more options and positional arguments than it has words; every recorded option is one of the parser's options, under its full name; every positional argument is a word of the line |
| Grammar.ParseInt | org_fedora_oscap/rule_handling.py:49-50 | an `int` value is read only from a non-empty text, and a negative one only from a text that starts with `-` or with `0b-`/`0B-` |
| Grammar.ParseSignedBinary | org_fedora_oscap/rule_handling.py:49-50 | after a `0b` prefix the binary digits may carry a sign: `0b-<bits>` is the negative and `0b+<bits>` the positive value of the bits |
| Grammar.ParseIntFormat | org_fedora_oscap/rule_handling.py:49-50 | an integer written with `%d` is read back by the `int` option type as the same integer |
| Grammar.ScanPlain | org_fedora_oscap/rule_handling.py:168 | a line of positional arguments only is returned unchanged, with no options |
| Grammar.ParseCsv | org_fedora_oscap/rule_handling.py:39-42 | every item parse_csv yields is non-empty and holds no comma |
| Grammar.ParseCsvJoin | org_fedora_oscap/rule_handling.py:39-42 | parse_csv of a comma-joined list yields its non-empty pieces, in order |
| Grammar.ParseCsvRoundTrip | org_fedora_oscap/rule_handling.py:39-42 | parse_csv of `",".join(items)` gives `items` back when each item is non-empty and comma-free |
| Grammar.MountOptions | org_fedora_oscap/rule_handling.py:44-46 | the options of all `--mountoptions` values, accumulated, are non-empty and comma-free |
| Grammar.Appended | org_fedora_oscap/rule_handling.py:53-56 | an `append` option yields None when absent and otherwise a non-empty list |
| Grammar.Stored | org_fedora_oscap/rule_handling.py:49-51 | a `store` option keeps its default when it does not occur, and otherwise holds the value of one of its occurrences |
| Grammar.Flagged | org_fedora_oscap/rule_handling.py:59-61 | a `store_true` option is set exactly when it occurs at least once; its default is False |
| Grammar.ParsePart | org_fedora_oscap/rule_handling.py:166-171 | a part line is accepted exactly when optparse accepts it and leaves at least two positional arguments; otherwise it fails with optparse's reason, or with a missing mount point; a parsed directive carries only non-empty, comma-free options |
| Grammar.ParsePasswd | org_fedora_oscap/rule_handling.py:179-181 | a passwd line fails exactly when optparse refuses it, and with optparse's reason |
| Grammar.ParsePackage | org_fedora_oscap/rule_handling.py:185-188 | a package line fails exactly when optparse refuses it, and with optparse's reason |
| Grammar.ParseBootloader | org_fedora_oscap/rule_handling.py:192-195 | a bootloader line fails exactly when optparse refuses it, and with optparse's reason |
| Grammar.FormatNat | org_fedora_oscap/rule_handling.py:330 | `%d` of a natural number is a decimal numeral of that value with no sign and no leading zero |
| Seqs.AppendAbsent | org_fedora_oscap/rule_handling.py:283-284 | the old list is kept as a prefix; the result holds exactly the old and the given items; each appended item was given, was absent and is appended once; a list without duplicates stays without duplicates |
| Seqs.AppendAbsentPresent | org_fedora_oscap/rule_handling.py:283-284 | adding items that are all present already leaves the list unchanged |
| Seqs.AppendAbsentIdempotent | org_fedora_oscap/rule_handling.py:283-284 | adding the same items again, in any order, changes nothing |
| Seqs.AppendAbsentFirstSeenOrder | org_fedora_oscap/rule_handling.py:283-284 | the appended items appear in the order of their first occurrence in the given list |
| Seqs.OrderingCardinality | org_fedora_oscap/rule_handling.py:403 | one iteration of a set visits exactly as many elements as the set has |
| Partitions.Missing | org_fedora_oscap/rule_handling.py:302-303 | the declared options missing from the target are exactly those declared and not present, without duplicates, and none when all are present |
| Partitions.AddedMessages | org_fedora_oscap/rule_handling.py:305-310 | one Info message per added option, in order, naming the option and the mount point |
| Partitions.PartMessages | org_fedora_oscap/rule_handling.py:286-316 | an unplanned mount point gives exactly one message, a Fatal one; a planned one gives one Info message per missing option and nothing Fatal |
| Partitions.PartsMessages | org_fedora_oscap/rule_handling.py:241-248 | the partition rules report nothing exactly when every mount point is planned and already has all its options |
| Partitions.SplitRendered | org_fedora_oscap/rule_handling.py:305-307 | splitting the options string after `",opt"` pieces are appended gives the old pieces followed by the appended options |
| Partitions.Fix | org_fedora_oscap/rule_handling.py:301-314 | the options string changes exactly when some declared option is missing from it |
| Partitions.FixComplete | org_fedora_oscap/rule_handling.py:313-314 | after the missing options are appended, none is missing and fixing again changes nothing |
| Partitions.FixAppends | org_fedora_oscap/rule_handling.py:314 | fixing only appends to the options string |
| Partitions.PartRule.constructor | org_fedora_oscap/rule_handling.py:253-263 | a new rule holds its mount point and no options |
| Partitions.PartRule.AddMountOptions | org_fedora_oscap/rule_handling.py:274-284 | the option list becomes the old list with each given option appended unless already present, and stays free of duplicates |
| Partitions.PartRule.EvalRules | org_fedora_oscap/rule_handling.py:286-316 | an unplanned mount point gives one Fatal message and no change; otherwise one Info per missing option, and in apply mode exactly those options appended as `",opt"`, in report-only mode no change |
| Partitions.PartRule.CheckOptions | org_fedora_oscap/rule_handling.py:301-310 | the loop over the declared options appends `",opt"` and one Info message for exactly the declared options missing from the target's options, in declared order |
| Partitions.PartRules.constructor | org_fedora_oscap/rule_handling.py:202-205 | a new collection holds no rules |
| Partitions.PartRules.EnsureMountPoint | org_fedora_oscap/rule_handling.py:237-239 | the mount point gets an empty rule only when it has none; no existing rule or option is replaced |
| Partitions.PartRules.EvalRules | org_fedora_oscap/rule_handling.py:241-248 | the messages of every rule in one order of the dictionary, concatenated; the plan is fixed for every rule in apply mode and unchanged in report-only mode |
| Partitions.PartRules.EvalRule | org_fedora_oscap/rule_handling.py:246-247 | one rule of the dictionary evaluated against the plan, in terms of the collection's option map |
| Partitions.VisitedStep | org_fedora_oscap/rule_handling.py:246-248 | one more rule evaluated keeps the loop state: visited rules, their messages in visiting order, and the plan fixed for them in apply mode |
| Passwords.PasswdRules.constructor | org_fedora_oscap/rule_handling.py:321-324 | the minimal length starts at 0 |
| Passwords.PasswdRules.UpdateMinlen | org_fedora_oscap/rule_handling.py:334-338 | the minimal length becomes the larger of the stored and the given length |
| Passwords.PasswdRules.EvalRules | org_fedora_oscap/rule_handling.py:340-349 | exactly one Warning naming the length when it is positive, otherwise no message |
| Passwords.PasswdMessages | org_fedora_oscap/rule_handling.py:343-349 | exactly one Warning naming the length when it is positive, otherwise no message |
| Bootloader.BootloaderRules.constructor | org_fedora_oscap/rule_handling.py:426-429 | no bootloader password is required at first |
| Bootloader.BootloaderRules.RequirePassword | org_fedora_oscap/rule_handling.py:431-434 | afterwards a bootloader password is required |
| Bootloader.BootloaderRules.EvalRules | org_fedora_oscap/rule_handling.py:66-90 | the inherited evaluation yields no message |
| Packages.Members | org_fedora_oscap/rule_handling.py:369-370 | the names an optional list contributes: none for None, else exactly its elements |
| Packages.InstallMessages | org_fedora_oscap/rule_handling.py:403-410 | one Info per package to install, in the order visited |
| Packages.ExcludeMessages | org_fedora_oscap/rule_handling.py:412-419 | one Info per package to exclude, in the order visited |
| Packages.PackageMessageCount | org_fedora_oscap/rule_handling.py:399-421 | an evaluation reports as many packages as the two sets hold together |
| Packages.PackageRules.constructor | org_fedora_oscap/rule_handling.py:354-358 | both package sets start empty |
| Packages.PackageRules.AddPackages | org_fedora_oscap/rule_handling.py:360-370 | the install set gains exactly the given names (none for None or an empty list); the exclude set is unchanged |
| Packages.PackageRules.RemovePackages | org_fedora_oscap/rule_handling.py:372-382 | the exclude set gains exactly the given names (none for None or an empty list); the install set is unchanged |
| Packages.PackageRules.EvalRules | org_fedora_oscap/rule_handling.py:399-421 | one Info per package of each set on every run; in apply mode each package is appended to its list unless present, in report-only mode neither list changes |
| Packages.PackageRules.EvalInstall | org_fedora_oscap/rule_handling.py:403-410 | the install loop: each package of the set once, appended to the install list unless present in apply mode |
| Packages.PackageRules.EvalExclude | org_fedora_oscap/rule_handling.py:412-419 | the exclude loop: each package of the set once, appended to the exclude list unless present in apply mode |
| RuleSpec.KindOf | org_fedora_oscap/rule_handling.py:136-141 | exactly the words part, passwd, package and bootloader have a handler |
| RuleSpec.Handle | org_fedora_oscap/rule_handling.py:166-197 | each handler changes only its own collection; it fails only when optparse refuses the line, or when a part line has no mount point |
| RuleSpec.WithRule | org_fedora_oscap/rule_handling.py:127-152 | a blank line changes nothing; another line is accepted only when its first word names a handler; an unknown rule is refused with that first word |
| RuleSpec.WithRuleGrows | org_fedora_oscap/rule_handling.py:127-152 | reading a line keeps the rules valid and only adds: no mount point lost, option lists grow at the end, minimal length never falls, package sets only grow, bootloader flag stays set |
| RuleSpec.HandleGrows | org_fedora_oscap/rule_handling.py:166-197 | every handler keeps the rules valid and only adds to them |
| RuleSpec.PartGrows | org_fedora_oscap/rule_handling.py:173-177 | adding a part directive keeps every option list duplicate-free and comma-free and keeps the old options as a prefix |
| RuleSpec.BlankLine | org_fedora_oscap/rule_handling.py:142-144 | an empty or all-whitespace line changes nothing |
| RuleSpec.UnknownKeyword | org_fedora_oscap/rule_handling.py:146-152 | a line whose first word is not a rule keyword is refused with that word |
| RuleSpec.PackageLinesCommute | org_fedora_oscap/rule_handling.py:185-190 | two package lines read in either order leave the same rules |
| RuleSpec.PartLinesCommute | org_fedora_oscap/rule_handling.py:166-177 | two part lines read in either order give the same mount points, each with the same set of options, and change nothing else; the order within an option list follows the order of the lines |
| RuleSpec.PasswdLinesKeepMaximum | org_fedora_oscap/rule_handling.py:179-183 | two passwd lines in either order leave the largest of the old and the two given lengths |
| RuleSpec.Report | org_fedora_oscap/rule_handling.py:154-164 | the partition messages, one password warning exactly when the length is positive, one message per package to install and per package to exclude, and none from the bootloader rules |
| RuleSpec.Evaluated | org_fedora_oscap/rule_handling.py:154-164 | report-only mode leaves the plan untouched, and the planned mount points stay the same in both modes |
| RuleSpec.EvaluatedPackages | org_fedora_oscap/rule_handling.py:399-421 | after an evaluation each package list holds exactly its old entries and, in apply mode, every package of its rule set |
| RuleSpec.Unplanned | org_fedora_oscap/rule_handling.py:290-296 | the messages for mount points missing from the plan are all Fatal |
| RuleSpec.ApplyIdempotent | org_fedora_oscap/rule_handling.py:154-164 | a second apply run, in any iteration order, leaves the plan exactly as the first left it |
| RuleSpec.AppliedIdempotent | org_fedora_oscap/rule_handling.py:241-316 | fixing all planned mount points twice is fixing them once |
| RuleSpec.SecondRunPartitionMessages | org_fedora_oscap/rule_handling.py:286-316 | after an apply run the partition rules report only the Fatal message of each unplanned mount point |
| RuleSpec.SecondRun | org_fedora_oscap/rule_handling.py:154-164 | a second run reports the unplanned mount points, the password warning and every package again, and no mount option |
| RuleSpec.PackageReportSize | org_fedora_oscap/rule_handling.py:399-421 | every run reports each package of both sets once |
| RuleSpec.ApplyOnlyAppends | org_fedora_oscap/rule_handling.py:154-164 | an apply run keeps the planned mount points and only appends to options strings and package lists |
| RuleHandling.RuleData.constructor | org_fedora_oscap/rule_handling.py:100-106 | a new rule set is empty and valid |
| RuleHandling.RuleData.NewRule | org_fedora_oscap/rule_handling.py:127-152 | the rules change as `WithRule` says; a refused line (unknown keyword, bad option, missing mount point) reports its error and changes nothing |
| RuleHandling.RuleData.NewPartRule | org_fedora_oscap/rule_handling.py:166-177 | a part directive makes sure its mount point has a rule and adds the options to it, or fails and changes nothing |
| RuleHandling.RuleData.AddPartRule | org_fedora_oscap/rule_handling.py:173-177 | the mount point's option list becomes the old one (empty if new) with the given options appended unless present; other mount points are untouched |
| RuleHandling.RuleData.ExtendPartRule | org_fedora_oscap/rule_handling.py:175-177 | the options are appended, unless present, to the mount point's existing rule and every other rule keeps its options |
| RuleHandling.RuleData.NewPasswdRule | org_fedora_oscap/rule_handling.py:179-183 | a passwd directive raises the minimal length to the given one (0 if none), or fails and changes nothing |
| RuleHandling.RuleData.NewPackageRule | org_fedora_oscap/rule_handling.py:185-190 | a package directive adds the --add and --remove names to their sets, or fails and changes nothing |
| RuleHandling.RuleData.NewBootloaderRule | org_fedora_oscap/rule_handling.py:192-197 | a bootloader directive with --passwd sets the flag, without it changes nothing, and a bad one fails and changes nothing |
| RuleHandling.RuleData.EvalRules | org_fedora_oscap/rule_handling.py:154-164 | the messages are the partition, password, package and bootloader messages in that order, and the plan becomes `Evaluated` (untouched in report-only mode); the rules do not change |
| Directives.ReadLine | org_fedora_oscap/rule_handling.py:142-150 | a line of words without quotes or backslashes goes to the handler its first word names, which reads exactly those words; another first word is refused |
| Directives.ScanPlainThen | org_fedora_oscap/rule_handling.py:168 | positional arguments in front of the options are kept, in order, in the argument list |
| Directives.ScanAssignments | org_fedora_oscap/rule_handling.py:44-56 | each `--name=value` of a string or int option records one occurrence with its value, in order |
| Directives.ScanFlagValue | org_fedora_oscap/rule_handling.py:58-60 | a `store_true` option given a value is refused |
| Directives.PasswdAbbreviation | org_fedora_oscap/rule_handling.py:58-60 | `--passwd` and every abbreviation of it from `--p` resolve to the `--passwd` option |
| Directives.PartLine | org_fedora_oscap/rule_handling.py:166-177 | a part line of words without quotes or backslashes, with any number of comma-joined `--mountoptions`, adds all listed options, in order and without duplicates, to its mount point |
| Directives.PartRefusedWithoutMountPoint | org_fedora_oscap/rule_handling.py:166-171 | every part line without quotes or backslashes whose options parse but leave no mount point after `part` is refused, whatever form its options take |
| Directives.PartWithoutMountPoint | org_fedora_oscap/rule_handling.py:169-171 | a part line with no mount point and any number of `--mountoptions=<list>` tokens, whose options hold no whitespace, quotes or backslashes, is refused |
| Directives.PartVerticalTab | org_fedora_oscap/rule_handling.py:146-171 | `part\v<mount point>`, for a mount point without quotes or backslashes, goes to the part handler, since `str.split` ends the first word at the vertical tab, but `shlex.split` keeps it as one token, so the line is refused for lack of a mount point |
| Directives.PasswdLine | org_fedora_oscap/rule_handling.py:179-183 | of several `--minlen` the last counts (0 if none), and the stored length becomes the larger of it and the old one |
| Directives.PackageLine | org_fedora_oscap/rule_handling.py:185-190 | every `--add` name joins the install set and every `--remove` name the exclude set, for names without whitespace, quotes or backslashes |
| Directives.BootloaderPasswd | org_fedora_oscap/rule_handling.py:192-197 | `bootloader --passwd`, possibly abbreviated, sets the flag |
| Directives.BootloaderPlain | org_fedora_oscap/rule_handling.py:192-197 | a bootloader line of positional words without quotes or backslashes, and without `--passwd`, changes nothing |
| Directives.BootloaderPasswdValue | org_fedora_oscap/rule_handling.py:192-197 | `bootloader --passwd=<v>`, for a value without whitespace, quotes or backslashes, is refused because the option takes no value |

## Left out

- `shlex.split` quoting and escaping: the model splits a line into words at shlex
  whitespace (space, tab, CR, LF) and treats `'`, `"` and `\` as ordinary characters.
  The real `shlex.split` removes quotes, applies backslash escapes and raises `ValueError`
  on an unclosed quote. The lemmas about whole lines therefore require words without
  quotes or backslashes (`Text.NoQuote`).
- optparse's help text and its process exit:
  - `-h`/`--help` and every parse error become an error result.
  - Only the features these four parsers use are modelled: long options, unique-prefix
    abbreviation, `=`/separate values, `--`, and positional arguments.
- Integer forms that Python's `int()` accepts beyond optparse's prefixes are not modelled:
  surrounding whitespace and a second prefix such as `0o17`.
- blivet's storage objects and pykickstart's `ksdata` are reduced to what the rules read
  and write: the mount points' options strings and the two package lists. Each mount point
  has its own format object, so no aliasing between them is modelled.
- The `__str__` renderers of all classes: they are debugging output.
- The container methods `__getitem__`, `__setitem__`, `__delitem__`, `__len__` and
  `__contains__` of `PartRules`. The rule logic reaches them only as map look-ups.
- Message wording and translation (`_`), `RuleMessage` and `OSCAPaddonError`: only the
  severity and the subject (mount point, option, length or package) are kept.
- The iteration order of Python dicts and sets is left open (a ghost order per run), so no
  ordering across mount points or across packages is stated.
- Python 2 strings are byte strings: `str.strip()` and `str.split()` whitespace is the six
  ASCII whitespace characters, and Unicode whitespace is not modelled.
