/**
 * RuleData: the four rule collections, fed one rule line at a time and evaluated
 * together against an installation plan.
 */
module RuleHandling {
  import opened Wrappers
  import opened Seqs
  import opened Text
  import opened Messages
  import opened Grammar
  import opened SystemState
  import opened Partitions
  import opened Passwords
  import opened Packages
  import opened Bootloader
  import opened RuleSpec

  /** The parts of the plan the rules read and fix, as a value. */
  ghost function Plan(ksdata: PackageSelection, storage: Storage): System
    reads ksdata, storage
  {
    System(storage.mountpoints, ksdata.packageList, ksdata.excludedList)
  }

  class RuleData {
    const partRules: PartRules
    const passwdRules: PasswdRules
    const packageRules: PackageRules
    const bootloaderRules: BootloaderRules

    /** The rules held, as a value. */
    ghost function Model(): Rules
      reads this, partRules, partRules.rules.Values, passwdRules, packageRules, bootloaderRules
    {
      Rules(partRules.Options(), passwdRules.minlen, packageRules.addPkgs, packageRules.removePkgs,
            bootloaderRules.requirePassword)
    }

    ghost predicate Valid()
      reads this, partRules, partRules.rules.Values, passwdRules, packageRules, bootloaderRules
    {
      partRules.Valid() && passwdRules.Valid() && RuleSpec.Valid(Model())
    }

    constructor ()
      ensures Valid() && Model() == NoRules
      ensures fresh(partRules) && fresh(passwdRules) && fresh(packageRules) && fresh(bootloaderRules)
    {
      partRules := new PartRules();
      passwdRules := new PasswdRules();
      packageRules := new PackageRules();
      bootloaderRules := new BootloaderRules();
      new;
      assert partRules.Options() == map[];
    }

    /**
     * new_rule: the rules change as WithRule says; a line that is refused (an unknown
     * keyword, a bad option, a part line without a mount point) changes nothing.
     */
    method NewRule(line: string) returns (outcome: Outcome<RuleError>)
      requires Valid()
      modifies partRules, partRules.rules.Values, passwdRules, packageRules, bootloaderRules
      ensures Valid()
      ensures match WithRule(old(Model()), line)
        case Ok(r) => outcome == Pass && Model() == r
        case Err(e) => outcome == Fail(e) && Model() == old(Model())
    {
      var rule := Strip(line);
      if rule == [] {
        return Pass;
      }
      var firstWord := WordPrefix(rule);
      match KindOf(firstWord)
      case None =>
        outcome := Fail(UnknownRule(firstWord));
      case Some(PartKind) =>
        outcome := NewPartRule(rule);
      case Some(PasswdKind) =>
        outcome := NewPasswdRule(rule);
      case Some(PackageKind) =>
        outcome := NewPackageRule(rule);
      case Some(BootloaderKind) =>
        outcome := NewBootloaderRule(rule);
      WithRuleGrows(old(Model()), line);
    }

    /** _new_part_rule: makes sure the mount point has a rule, then adds the listed options to it. */
    method NewPartRule(rule: string) returns (outcome: Outcome<RuleError>)
      requires Valid()
      modifies partRules, partRules.rules.Values
      ensures Valid()
      ensures match Handle(old(Model()), PartKind, Words(rule))
        case Ok(r) => outcome == Pass && Model() == r
        case Err(e) => outcome == Fail(e) && Model() == old(Model())
    {
      var directive := ParsePart(Words(rule));
      if directive.Err? {
        return Fail(directive.error);
      }
      PartGrows(Model(), directive.value);
      AddPartRule(directive.value.mountPoint, directive.value.mountOptions);
      outcome := Pass;
    }

    /** The mount point gets a rule if it has none, and the options are added to that rule. */
    method AddPartRule(mountPoint: string, options: seq<string>)
      requires partRules.Valid()
      modifies partRules, partRules.rules.Values
      ensures partRules.Valid()
      ensures partRules.Options() ==
        old(partRules.Options())[mountPoint := AppendAbsent(OptionsOf(old(partRules.Options()), mountPoint), options)]
    {
      ghost var before := partRules.Options();
      ghost var added := AppendAbsent(OptionsOf(before, mountPoint), options);
      partRules.EnsureMountPoint(mountPoint);
      ghost var mid := partRules.Options();
      assert mid[mountPoint] == OptionsOf(before, mountPoint);
      assert mid[mountPoint := added] == before[mountPoint := added];
      if options != [] {
        ExtendPartRule(mountPoint, options);
      } else {
        assert mid == mid[mountPoint := added];
      }
    }

    /** add_mount_options on the rule a mount point already has; the other rules keep their options. */
    method ExtendPartRule(mountPoint: string, options: seq<string>)
      requires partRules.Valid() && mountPoint in partRules.rules
      modifies partRules.rules[mountPoint]
      ensures partRules.Valid()
      ensures partRules.Options() ==
        old(partRules.Options())[mountPoint := AppendAbsent(old(partRules.Options())[mountPoint], options)]
    {
      ghost var before := partRules.Options();
      var partData := partRules.rules[mountPoint];
      partData.AddMountOptions(options);
      forall mp | mp in partRules.rules && mp != mountPoint
        ensures partRules.rules[mp].mountOptions == before[mp]
      {
        assert partRules.rules[mp].mountPoint == mp;
      }
    }

    /** _new_passwd_rule: raises the minimal length to the one given (0 when none is). */
    method NewPasswdRule(rule: string) returns (outcome: Outcome<RuleError>)
      requires Valid()
      modifies passwdRules
      ensures Valid()
      ensures match Handle(old(Model()), PasswdKind, Words(rule))
        case Ok(r) => outcome == Pass && Model() == r
        case Err(e) => outcome == Fail(e) && Model() == old(Model())
    {
      var minlen := ParsePasswd(Words(rule));
      if minlen.Err? {
        return Fail(minlen.error);
      }
      passwdRules.UpdateMinlen(minlen.value);
      outcome := Pass;
    }

    /** _new_package_rule: adds the --add names, then the --remove names. */
    method NewPackageRule(rule: string) returns (outcome: Outcome<RuleError>)
      requires Valid()
      modifies packageRules
      ensures Valid()
      ensures match Handle(old(Model()), PackageKind, Words(rule))
        case Ok(r) => outcome == Pass && Model() == r
        case Err(e) => outcome == Fail(e) && Model() == old(Model())
    {
      var directive := ParsePackage(Words(rule));
      if directive.Err? {
        return Fail(directive.error);
      }
      packageRules.AddPackages(directive.value.add);
      packageRules.RemovePackages(directive.value.remove);
      outcome := Pass;
    }

    /** _new_bootloader_rule: --passwd sets the flag; without it nothing changes. */
    method NewBootloaderRule(rule: string) returns (outcome: Outcome<RuleError>)
      requires Valid()
      modifies bootloaderRules
      ensures Valid()
      ensures match Handle(old(Model()), BootloaderKind, Words(rule))
        case Ok(r) => outcome == Pass && Model() == r
        case Err(e) => outcome == Fail(e) && Model() == old(Model())
    {
      var passwd := ParseBootloader(Words(rule));
      if passwd.Err? {
        return Fail(passwd.error);
      }
      if passwd.value {
        bootloaderRules.RequirePassword();
      }
      outcome := Pass;
    }

    /**
     * eval_rules: the messages of the four collections, in the order partitions, password,
     * packages, bootloader, and the plan as Evaluated says (untouched in report-only mode).
     */
    method EvalRules(ksdata: PackageSelection, storage: Storage, reportOnly: bool)
      returns (messages: seq<Message>, ghost orders: Orders)
      requires Valid()
      modifies ksdata, storage
      ensures Valid() && Model() == old(Model())
      ensures Fits(orders, Model())
      ensures messages == Report(Model(), orders, old(Plan(ksdata, storage)))
      ensures Plan(ksdata, storage) == Evaluated(Model(), orders, old(Plan(ksdata, storage)), reportOnly)
    {
      ghost var model, plan := Model(), Plan(ksdata, storage);
      var partMessages;
      ghost var partOrder;
      partMessages, partOrder := partRules.EvalRules(storage, reportOnly);
      assert Valid() && Model() == model;
      var passwdMessages := passwdRules.EvalRules();
      var packageMessages;
      ghost var addOrder, removeOrder;
      packageMessages, addOrder, removeOrder := packageRules.EvalRules(ksdata, reportOnly);
      assert Valid() && Model() == model;
      var bootloaderMessages := bootloaderRules.EvalRules();
      messages := partMessages + passwdMessages + packageMessages + bootloaderMessages;
      orders := Orders(partOrder, addOrder, removeOrder);
      assert messages == Report(model, orders, plan);
    }
  }
}
