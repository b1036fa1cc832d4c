/**
 * The rule set as a value: what reading rule lines does to it, and what evaluating it
 * against an installation plan reports and changes. The RuleData class is proved to follow it.
 */
module RuleSpec {
  import opened Wrappers
  import opened Seqs
  import opened Text
  import opened Messages
  import opened Grammar
  import opened Partitions
  import opened Passwords
  import opened Packages

  datatype Kind = PartKind | PasswdKind | PackageKind | BootloaderKind

  /** The handler table of new_rule: exactly the four rule keywords have a handler. */
  function KindOf(word: string): (r: Option<Kind>)
    ensures r.Some? <==> word == "part" || word == "passwd" || word == "package" || word == "bootloader"
  {
    if word == "part" then Some(PartKind)
    else if word == "passwd" then Some(PasswdKind)
    else if word == "package" then Some(PackageKind)
    else if word == "bootloader" then Some(BootloaderKind)
    else None
  }

  /** Everything the four rule collections hold. */
  datatype Rules = Rules(
    parts: map<string, seq<string>>,  // mount point -> required mount options
    minlen: int,                      // minimal password length
    add: set<string>,                 // packages to install
    remove: set<string>,              // packages to exclude
    bootloaderPassword: bool)         // bootloader password required

  const NoRules := Rules(map[], 0, {}, {}, false)

  /** What reading directives guarantees: option lists without duplicates or commas, minlen >= 0. */
  ghost predicate Valid(r: Rules) {
    r.minlen >= 0 &&
    forall mp :: mp in r.parts ==>
      NoDuplicates(r.parts[mp]) && forall k :: 0 <= k < |r.parts[mp]| ==> IsCsvItem(r.parts[mp][k])
  }

  function OptionsOf(parts: map<string, seq<string>>, mountPoint: string): seq<string> {
    if mountPoint in parts then parts[mountPoint] else []
  }

  /** The _new_*_rule handlers: parse the tokens and merge the directive into its collection. */
  function Handle(r: Rules, kind: Kind, tokens: seq<string>): (h: Result<Rules, RuleError>)
    ensures h.Ok? && kind != PartKind ==> h.value.parts == r.parts
    ensures h.Ok? && kind != PasswdKind ==> h.value.minlen == r.minlen
    ensures h.Ok? && kind != PackageKind ==> h.value.add == r.add && h.value.remove == r.remove
    ensures h.Ok? && kind != BootloaderKind ==> h.value.bootloaderPassword == r.bootloaderPassword
    ensures h.Err? ==> h.error.BadDirective? || (kind == PartKind && h.error == MissingMountPoint)
  {
    match kind
    case PartKind =>
      var d :- ParsePart(tokens);
      Ok(AddPart(r, d))
    case PasswdKind =>
      var minlen :- ParsePasswd(tokens);
      Ok(r.(minlen := if minlen > r.minlen then minlen else r.minlen))
    case PackageKind =>
      var d :- ParsePackage(tokens);
      Ok(r.(add := r.add + Members(d.add), remove := r.remove + Members(d.remove)))
    case BootloaderKind =>
      var passwd :- ParseBootloader(tokens);
      Ok(if passwd then r.(bootloaderPassword := true) else r)
  }

  /**
   * new_rule: a blank line is ignored, the first word picks the handler, and the handler
   * reads the whole line split into words.
   */
  function WithRule(r: Rules, line: string): (w: Result<Rules, RuleError>)
    ensures AllSpace(line) ==> w == Ok(r)
    ensures w.Ok? && !AllSpace(line) ==> KindOf(WordPrefix(Strip(line))).Some?
    ensures w.Err? && w.error.UnknownRule? ==> w.error.word == WordPrefix(Strip(line)) && KindOf(w.error.word).None?
  {
    var rule := Strip(line);
    if rule == [] then Ok(r)
    else
      var word := WordPrefix(rule);
      match KindOf(word)
      case None => Err(UnknownRule(word))
      case Some(kind) => Handle(r, kind, Words(rule))
  }

  /** `after` holds everything `before` held: rules are only ever added or raised. */
  ghost predicate Grows(before: Rules, after: Rules) {
    (forall mp :: mp in before.parts ==>
       mp in after.parts && |before.parts[mp]| <= |after.parts[mp]| &&
       after.parts[mp][..|before.parts[mp]|] == before.parts[mp]) &&
    after.minlen >= before.minlen &&
    before.add <= after.add && before.remove <= after.remove &&
    (before.bootloaderPassword ==> after.bootloaderPassword)
  }

  /**
   * Reading a line keeps the rules valid and only adds to them: mount points are never
   * removed, option lists only grow at the end, the minimal length never decreases, the
   * package sets only grow and the bootloader flag, once set, stays set.
   */
  lemma WithRuleGrows(r: Rules, line: string)
    requires Valid(r)
    ensures WithRule(r, line).Ok? ==> Valid(WithRule(r, line).value) && Grows(r, WithRule(r, line).value)
  {
    var rule := Strip(line);
    if rule == [] {
      assert WithRule(r, line) == Ok(r);
      GrowsReflexive(r);
    } else {
      match KindOf(WordPrefix(rule))
      case None =>
        assert WithRule(r, line).Err?;
      case Some(kind) =>
        assert WithRule(r, line) == Handle(r, kind, Words(rule));
        HandleGrows(r, kind, Words(rule));
    }
  }

  lemma GrowsReflexive(r: Rules)
    ensures Grows(r, r)
  {
    forall mp | mp in r.parts
      ensures r.parts[mp][..|r.parts[mp]|] == r.parts[mp]
    {
    }
  }

  lemma HandleGrows(r: Rules, kind: Kind, tokens: seq<string>)
    requires Valid(r)
    ensures Handle(r, kind, tokens).Ok? ==> Valid(Handle(r, kind, tokens).value) && Grows(r, Handle(r, kind, tokens).value)
  {
    if kind == PartKind && ParsePart(tokens).Ok? {
      PartGrows(r, ParsePart(tokens).value);
    }
  }

  lemma PartGrows(r: Rules, d: PartDirective)
    requires Valid(r)
    requires forall k :: 0 <= k < |d.mountOptions| ==> IsCsvItem(d.mountOptions[k])
    ensures var after := r.(parts := r.parts[d.mountPoint := AppendAbsent(OptionsOf(r.parts, d.mountPoint), d.mountOptions)]);
      Valid(after) && Grows(r, after)
  {
    var before := OptionsOf(r.parts, d.mountPoint);
    var options := AppendAbsent(before, d.mountOptions);
    assert forall k :: 0 <= k < |options| ==> IsCsvItem(options[k]) by {
      forall k | 0 <= k < |options| ensures IsCsvItem(options[k]) {
        assert options[k] in before || options[k] in d.mountOptions;
      }
    }
  }

  /** A line that is empty or all whitespace changes nothing. */
  lemma BlankLine(r: Rules, line: string)
    requires AllSpace(line)
    ensures WithRule(r, line) == Ok(r)
  {
  }

  /** A line whose first word is not a rule keyword is refused with that word. */
  lemma UnknownKeyword(r: Rules, line: string)
    requires !AllSpace(line)
    requires var w := WordPrefix(Strip(line)); w != "part" && w != "passwd" && w != "package" && w != "bootloader"
    ensures WithRule(r, line) == Err(UnknownRule(WordPrefix(Strip(line))))
  {
  }

  /** Two package lines read in either order leave the same rules. */
  lemma PackageLinesCommute(r: Rules, a: seq<string>, b: seq<string>)
    requires Handle(r, PackageKind, a).Ok? && Handle(r, PackageKind, b).Ok?
    ensures Handle(Handle(r, PackageKind, a).value, PackageKind, b) ==
            Handle(Handle(r, PackageKind, b).value, PackageKind, a)
  {
    var da, db := ParsePackage(a).value, ParsePackage(b).value;
    assert r.add + Members(da.add) + Members(db.add) == r.add + Members(db.add) + Members(da.add);
    assert r.remove + Members(da.remove) + Members(db.remove) == r.remove + Members(db.remove) + Members(da.remove);
  }

  /** `p` and `q` have the same mount points, each with the same set of options. */
  ghost predicate SameOptionSets(p: map<string, seq<string>>, q: map<string, seq<string>>) {
    p.Keys == q.Keys && forall mp, x :: mp in p ==> (x in p[mp] <==> x in q[mp])
  }

  /**
   * Two part lines read in either order leave the same mount points, each with the same
   * set of options, and change nothing else. The option LIST is in first-seen order, so
   * the order of the options, and with it the text appended to a mount point's options
   * and the order of the messages about them, follows the order of the lines.
   */
  lemma PartLinesCommute(r: Rules, a: seq<string>, b: seq<string>)
    requires Handle(r, PartKind, a).Ok? && Handle(r, PartKind, b).Ok?
    ensures var ab := Handle(Handle(r, PartKind, a).value, PartKind, b);
      var ba := Handle(Handle(r, PartKind, b).value, PartKind, a);
      ab.Ok? && ba.Ok? && SameOptionSets(ab.value.parts, ba.value.parts) &&
      ab.value == ba.value.(parts := ab.value.parts)
  {
    var da, db := ParsePart(a).value, ParsePart(b).value;
    var ra := AddPart(r, da);
    var rb := AddPart(r, db);
    assert Handle(r, PartKind, a) == Ok(ra);
    assert Handle(r, PartKind, b) == Ok(rb);
    assert Handle(ra, PartKind, b) == Ok(AddPart(ra, db));
    assert Handle(rb, PartKind, a) == Ok(AddPart(rb, da));
    AddPartsCommute(r, da, db);
  }

  /** The rules after merging one part directive, as Handle computes them. */
  function AddPart(r: Rules, d: PartDirective): Rules {
    r.(parts := r.parts[d.mountPoint := AppendAbsent(OptionsOf(r.parts, d.mountPoint), d.mountOptions)])
  }

  lemma AddPartsCommute(r: Rules, da: PartDirective, db: PartDirective)
    ensures var ab, ba := AddPart(AddPart(r, da), db), AddPart(AddPart(r, db), da);
      SameOptionSets(ab.parts, ba.parts) && ab == ba.(parts := ab.parts)
  {
    var ab, ba := AddPart(AddPart(r, da), db), AddPart(AddPart(r, db), da);
    assert ab.parts.Keys == r.parts.Keys + {da.mountPoint, db.mountPoint};
    assert ba.parts.Keys == r.parts.Keys + {da.mountPoint, db.mountPoint};
    forall mp, x | mp in ab.parts
      ensures x in ab.parts[mp] <==> x in ba.parts[mp]
    {
      var prior := OptionsOf(r.parts, mp);
      var fromA := if mp == da.mountPoint then da.mountOptions else [];
      var fromB := if mp == db.mountPoint then db.mountOptions else [];
      assert x in ab.parts[mp] <==> x in prior || x in fromA || x in fromB;
      assert x in ba.parts[mp] <==> x in prior || x in fromA || x in fromB;
    }
  }

  /** Two passwd lines in either order leave the largest of the three lengths. */
  lemma PasswdLinesKeepMaximum(r: Rules, a: seq<string>, b: seq<string>)
    requires ParsePasswd(a).Ok? && ParsePasswd(b).Ok?
    ensures var x, y := ParsePasswd(a).value, ParsePasswd(b).value;
      var m := Handle(Handle(r, PasswdKind, a).value, PasswdKind, b).value.minlen;
      m >= r.minlen && m >= x && m >= y && (m == r.minlen || m == x || m == y) &&
      m == Handle(Handle(r, PasswdKind, b).value, PasswdKind, a).value.minlen
  {
  }

  /** The parts of the plan the rules read and fix. */
  datatype System = System(mountpoints: map<string, string>, packageList: seq<string>, excludedList: seq<string>)

  /** The order one evaluation visits the mount points and the two package sets in. */
  datatype Orders = Orders(parts: seq<string>, add: seq<string>, remove: seq<string>)

  ghost predicate Fits(o: Orders, r: Rules) {
    IsOrdering(o.parts, r.parts.Keys) && IsOrdering(o.add, r.add) && IsOrdering(o.remove, r.remove)
  }

  /**
   * The messages of RuleData.eval_rules: partition, password, package and bootloader
   * messages, in that order, with nothing cut short by a Fatal one. They are the same
   * in report-only and in apply mode.
   */
  function Report(r: Rules, o: Orders, s: System): (m: seq<Message>)
    requires forall mp :: mp in o.parts ==> mp in r.parts
    ensures |m| == |PartsMessages(o.parts, r.parts, s.mountpoints)| + (if r.minlen > 0 then 1 else 0) + |o.add| + |o.remove|
  {
    PartsMessages(o.parts, r.parts, s.mountpoints) + PasswdMessages(r.minlen)
      + (InstallMessages(o.add) + ExcludeMessages(o.remove)) + []
  }

  /** The plan after RuleData.eval_rules: untouched in report-only mode. */
  function Evaluated(r: Rules, o: Orders, s: System, reportOnly: bool): (e: System)
    ensures reportOnly ==> e == s
    ensures e.mountpoints.Keys == s.mountpoints.Keys
  {
    if reportOnly then s
    else System(Applied(r.parts, s.mountpoints), AppendAbsent(s.packageList, o.add), AppendAbsent(s.excludedList, o.remove))
  }
  /** After an evaluation each package list holds exactly its old entries and, in apply mode, the packages of its set. */
  lemma EvaluatedPackages(r: Rules, o: Orders, s: System, reportOnly: bool)
    requires Fits(o, r)
    ensures var e := Evaluated(r, o, s, reportOnly);
      forall p :: p in e.packageList <==> p in s.packageList || (!reportOnly && p in r.add)
    ensures var e := Evaluated(r, o, s, reportOnly);
      forall p :: p in e.excludedList <==> p in s.excludedList || (!reportOnly && p in r.remove)
  {
  }


  /** The Fatal messages of the mount points in `order` that the plan does not have. */
  function Unplanned(order: seq<string>, mountpoints: map<string, string>): (r: seq<Message>)
    ensures forall m :: m in r ==> m.severity == Fatal
  {
    if order == [] then []
    else
      var mp := order[|order| - 1];
      Unplanned(order[..|order| - 1], mountpoints)
        + (if mp in mountpoints then [] else [Message(Fatal, SeparatePartition(mp))])
  }

  /** Applying twice is applying once, whatever order each run visits the rules in. */
  lemma ApplyIdempotent(r: Rules, o1: Orders, o2: Orders, s: System)
    requires Valid(r) && Fits(o1, r) && Fits(o2, r)
    ensures var once := Evaluated(r, o1, s, false); Evaluated(r, o2, once, false) == once
  {
    var once := Evaluated(r, o1, s, false);
    AppliedIdempotent(r.parts, s.mountpoints);
    AppendAbsentIdempotent(s.packageList, o1.add, o2.add);
    AppendAbsentIdempotent(s.excludedList, o1.remove, o2.remove);
  }

  lemma AppliedIdempotent(parts: map<string, seq<string>>, mountpoints: map<string, string>)
    requires forall mp :: mp in parts ==> forall k :: 0 <= k < |parts[mp]| ==> IsCsvItem(parts[mp][k])
    ensures Applied(parts, Applied(parts, mountpoints)) == Applied(parts, mountpoints)
  {
    var once := Applied(parts, mountpoints);
    forall mp | mp in once && mp in parts
      ensures Fix(parts[mp], once[mp]) == once[mp]
    {
      FixComplete(parts[mp], mountpoints[mp]);
    }
  }

  /**
   * After an apply run, a second run reports nothing about mount options: only the Fatal
   * message of each mount point the plan lacks is left.
   */
  lemma {:induction false} SecondRunPartitionMessages(parts: map<string, seq<string>>, order: seq<string>, mountpoints: map<string, string>)
    requires forall mp :: mp in order ==> mp in parts
    requires forall mp :: mp in parts ==> forall k :: 0 <= k < |parts[mp]| ==> IsCsvItem(parts[mp][k])
    ensures PartsMessages(order, parts, Applied(parts, mountpoints)) == Unplanned(order, mountpoints)
  {
    if order != [] {
      var mp := order[|order| - 1];
      var init := order[..|order| - 1];
      assert forall x :: x in init ==> x in order;
      SecondRunPartitionMessages(parts, init, mountpoints);
      if mp in mountpoints {
        FixComplete(parts[mp], mountpoints[mp]);
      }
    }
  }

  /**
   * A second apply run: the same plan, the same password and package messages, and of the
   * partition messages only the Fatal ones.
   */
  lemma SecondRun(r: Rules, o1: Orders, o2: Orders, s: System)
    requires Valid(r) && Fits(o1, r) && Fits(o2, r)
    ensures var once := Evaluated(r, o1, s, false);
      Report(r, o2, once) ==
        Unplanned(o2.parts, s.mountpoints) + PasswdMessages(r.minlen)
          + (InstallMessages(o2.add) + ExcludeMessages(o2.remove))
  {
    SecondRunPartitionMessages(r.parts, o2.parts, s.mountpoints);
  }

  /** Every run reports each package of both sets once, applied before or not. */
  lemma PackageReportSize(r: Rules, o: Orders)
    requires Fits(o, r)
    ensures |InstallMessages(o.add) + ExcludeMessages(o.remove)| == |r.add| + |r.remove|
  {
    PackageMessageCount(r.add, r.remove, o.add, o.remove);
  }

  /** An apply run only appends: every list and options string of the plan keeps its old text as a prefix. */
  lemma ApplyOnlyAppends(r: Rules, o: Orders, s: System)
    ensures var after := Evaluated(r, o, s, false);
      after.mountpoints.Keys == s.mountpoints.Keys &&
      (forall mp :: mp in s.mountpoints ==> IsPrefix(s.mountpoints[mp], after.mountpoints[mp])) &&
      after.packageList[..|s.packageList|] == s.packageList &&
      after.excludedList[..|s.excludedList|] == s.excludedList
  {
  }
}
