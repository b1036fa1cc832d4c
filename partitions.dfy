/**
 * Partition rules: for each mount point, the mount options it must have. Evaluation reports
 * a mount point that is not planned, and adds missing options to a planned one.
 */
module Partitions {
  import opened Wrappers
  import opened Seqs
  import opened Text
  import opened Messages
  import opened Grammar
  import opened SystemState

  /** The declared options absent from the present ones, in declared order. */
  function Missing(declared: seq<string>, present: seq<string>): (r: seq<string>)
    ensures |r| <= |declared|
    ensures forall x :: x in r <==> x in declared && x !in present
    ensures NoDuplicates(declared) ==> NoDuplicates(r)
    ensures (forall x :: x in declared ==> x in present) ==> r == []
  {
    if declared == [] then []
    else
      var init := declared[..|declared| - 1];
      var x := declared[|declared| - 1];
      assert declared == init + [x];
      var before := Missing(init, present);
      if x in present then before else before + [x]
  }

  /** The text appended to the options string: ",opt" for each option, even after an empty string. */
  function Rendered(options: seq<string>): string {
    if options == [] then []
    else Rendered(options[..|options| - 1]) + [','] + options[|options| - 1]
  }

  /** One Info message per added option. */
  function AddedMessages(mountPoint: string, options: seq<string>): (r: seq<Message>)
    ensures |r| == |options|
    ensures forall k :: 0 <= k < |r| ==> r[k] == Message(Info, MountOptionAdded(options[k], mountPoint))
  {
    if options == [] then []
    else AddedMessages(mountPoint, options[..|options| - 1])
           + [Message(Info, MountOptionAdded(options[|options| - 1], mountPoint))]
  }

  /** The options string of a planned mount point once the missing options are appended. */
  function Fix(declared: seq<string>, options: string): (fixed: string)
    ensures fixed == options <==> Missing(declared, Split(options, ',')) == []
  {
    options + Rendered(Missing(declared, Split(options, ',')))
  }

  /**
   * The messages of one partition rule, given the planned options string of its mount point
   * (None when the mount point is not planned).
   */
  function PartMessages(mountPoint: string, declared: seq<string>, target: Option<string>): (m: seq<Message>)
    ensures target.None? ==> |m| == 1
    ensures target.Some? ==> |m| == |Missing(declared, Split(target.value, ','))|
    ensures forall k :: 0 <= k < |m| ==> (m[k].severity == Fatal <==> target.None?)
  {
    match target
    case None => [Message(Fatal, SeparatePartition(mountPoint))]
    case Some(options) => AddedMessages(mountPoint, Missing(declared, Split(options, ',')))
  }

  function Lookup(m: map<string, string>, key: string): Option<string> {
    if key in m then Some(m[key]) else None
  }

  /** The messages of all partition rules, visited in `order`. */
  function PartsMessages(order: seq<string>, rules: map<string, seq<string>>, mountpoints: map<string, string>): (m: seq<Message>)
    requires forall mp :: mp in order ==> mp in rules
    ensures m == [] <==> forall mp :: mp in order ==> mp in mountpoints && Missing(rules[mp], Split(mountpoints[mp], ',')) == []
  {
    if order == [] then []
    else
      var mp := order[|order| - 1];
      PartsMessages(order[..|order| - 1], rules, mountpoints) + PartMessages(mp, rules[mp], Lookup(mountpoints, mp))
  }

  /** The planned mount points after fixing those among `done` that have a rule. */
  function AppliedTo(rules: map<string, seq<string>>, done: set<string>, mountpoints: map<string, string>): map<string, string> {
    map mp | mp in mountpoints :: if mp in done && mp in rules then Fix(rules[mp], mountpoints[mp]) else mountpoints[mp]
  }

  /** The planned mount points after every partition rule was applied. */
  function Applied(rules: map<string, seq<string>>, mountpoints: map<string, string>): map<string, string> {
    AppliedTo(rules, rules.Keys, mountpoints)
  }

  lemma MissingSnoc(declared: seq<string>, x: string, present: seq<string>)
    ensures Missing(declared + [x], present) ==
      if x in present then Missing(declared, present) else Missing(declared, present) + [x]
  {
    assert (declared + [x])[..|declared|] == declared;
  }

  lemma RenderedSnoc(options: seq<string>, x: string)
    ensures Rendered(options + [x]) == Rendered(options) + [','] + x
  {
    assert (options + [x])[..|options|] == options;
  }

  lemma AddedMessagesSnoc(mountPoint: string, options: seq<string>, x: string)
    ensures AddedMessages(mountPoint, options + [x]) ==
      AddedMessages(mountPoint, options) + [Message(Info, MountOptionAdded(x, mountPoint))]
  {
    assert (options + [x])[..|options|] == options;
  }

  /** One more declared option is missing exactly when it is not present. */
  lemma MissingStep(declared: seq<string>, i: nat, present: seq<string>)
    requires i < |declared|
    ensures Missing(declared[..i + 1], present) ==
      if declared[i] in present then Missing(declared[..i], present) else Missing(declared[..i], present) + [declared[i]]
  {
    assert declared[..i + 1] == declared[..i] + [declared[i]];
    MissingSnoc(declared[..i], declared[i], present);
  }

  /** Appending ",opt" pieces to an options string adds exactly those pieces to its split. */
  lemma {:induction false} SplitRendered(options: string, added: seq<string>)
    requires forall k :: 0 <= k < |added| ==> ',' !in added[k]
    ensures Split(options + Rendered(added), ',') == Split(options, ',') + added
  {
    if added != [] {
      var init := added[..|added| - 1];
      assert forall k :: 0 <= k < |init| ==> ',' !in init[k];
      SplitRendered(options, init);
      SplitRenderedStep(options, added);
    } else {
      assert options + Rendered(added) == options;
      assert Split(options, ',') + added == Split(options, ',');
    }
  }

  lemma SplitRenderedStep(options: string, added: seq<string>)
    requires added != [] && ',' !in added[|added| - 1]
    requires Split(options + Rendered(added[..|added| - 1]), ',') == Split(options, ',') + added[..|added| - 1]
    ensures Split(options + Rendered(added), ',') == Split(options, ',') + added
  {
    var init, x := added[..|added| - 1], added[|added| - 1];
    InitLast(added);
    RenderedLast(options, added);
    SplitAppend(options + Rendered(init), ',', x);
    ConcatAssociates(Split(options, ','), init, [x]);
  }

  lemma RenderedLast(options: string, added: seq<string>)
    requires added != []
    ensures options + Rendered(added) ==
      (options + Rendered(added[..|added| - 1])) + [','] + added[|added| - 1]
  {
    var init, x := Rendered(added[..|added| - 1]), added[|added| - 1];
    assert Rendered(added) == init + [','] + x;
    PieceAssociates(options, init, ',', x);
  }

  lemma PieceAssociates(a: string, b: string, sep: char, x: string)
    ensures a + (b + [sep] + x) == (a + b) + [sep] + x
  {
    var l, r := a + (b + [sep] + x), (a + b) + [sep] + x;
    assert |l| == |r|;
    forall i | 0 <= i < |l| ensures l[i] == r[i] {
    }
  }

  /** Once fixed, an options string holds every declared option: a second fix adds nothing. */
  lemma FixComplete(declared: seq<string>, options: string)
    requires forall k :: 0 <= k < |declared| ==> IsCsvItem(declared[k])
    ensures Missing(declared, Split(Fix(declared, options), ',')) == []
    ensures Fix(declared, Fix(declared, options)) == Fix(declared, options)
  {
    var missing := Missing(declared, Split(options, ','));
    assert forall k :: 0 <= k < |missing| ==> missing[k] in declared;
    SplitRendered(options, missing);
    assert forall x :: x in declared ==> x in Split(Fix(declared, options), ',');
  }

  /** Fixing keeps the old options string as a prefix: options are only ever appended. */
  lemma FixAppends(declared: seq<string>, options: string)
    ensures IsPrefix(options, Fix(declared, options))
  {
  }

  /** A single partition rule for one mount point: its ordered, duplicate-free mount options. */
  class PartRule {
    const mountPoint: string
    var mountOptions: seq<string>

    ghost predicate Valid()
      reads this
    {
      NoDuplicates(mountOptions)
    }

    constructor (mountPoint: string)
      ensures Valid()
      ensures this.mountPoint == mountPoint && mountOptions == []
    {
      this.mountPoint := mountPoint;
      mountOptions := [];
    }

    /** add_mount_options: appends each option not yet in the list. */
    method AddMountOptions(options: seq<string>)
      requires Valid()
      modifies this
      ensures Valid()
      ensures mountOptions == AppendAbsent(old(mountOptions), options)
    {
      var i := 0;
      while i < |options|
        invariant 0 <= i <= |options|
        invariant mountOptions == AppendAbsent(old(mountOptions), options[..i])
        invariant NoDuplicates(mountOptions)
      {
        assert options[..i + 1][..i] == options[..i];
        if options[i] !in mountOptions {
          mountOptions := mountOptions + [options[i]];
        }
        i := i + 1;
      }
      assert options[..i] == options;
    }

    /**
     * eval_rules: a Fatal message when the mount point is not planned; otherwise one Info per
     * declared option missing from the planned options, which apply mode appends.
     */
    method EvalRules(storage: Storage, reportOnly: bool) returns (messages: seq<Message>)
      modifies storage
      ensures messages == PartMessages(mountPoint, mountOptions, Lookup(old(storage.mountpoints), mountPoint))
      ensures storage.mountpoints ==
        if reportOnly || mountPoint !in old(storage.mountpoints) then old(storage.mountpoints)
        else old(storage.mountpoints)[mountPoint := Fix(mountOptions, old(storage.mountpoints)[mountPoint])]
    {
      if mountPoint !in storage.mountpoints {
        messages := [Message(Fatal, SeparatePartition(mountPoint))];
        return;
      }
      var options := storage.mountpoints[mountPoint];
      var added;
      added, messages := CheckOptions(options);
      if !reportOnly {
        storage.mountpoints := storage.mountpoints[mountPoint := options + added];
      }
    }

    /**
     * The loop of eval_rules over the declared options: the text apply mode appends and the
     * messages, for the declared options missing from the planned options string.
     */
    method CheckOptions(options: string) returns (added: string, messages: seq<Message>)
      ensures added == Rendered(Missing(mountOptions, Split(options, ',')))
      ensures messages == AddedMessages(mountPoint, Missing(mountOptions, Split(options, ',')))
    {
      var present := Split(options, ',');
      added, messages := "", [];
      ghost var missing: seq<string> := [];
      var i := 0;
      while i < |mountOptions|
        invariant 0 <= i <= |mountOptions|
        invariant missing == Missing(mountOptions[..i], present)
        invariant added == Rendered(missing)
        invariant messages == AddedMessages(mountPoint, missing)
      {
        var option := mountOptions[i];
        MissingStep(mountOptions, i, present);
        if option !in present {
          RenderedSnoc(missing, option);
          AddedMessagesSnoc(mountPoint, missing, option);
          added := added + [','] + option;
          messages := messages + [Message(Info, MountOptionAdded(option, mountPoint))];
          missing := missing + [option];
        }
        i := i + 1;
      }
      assert mountOptions[..i] == mountOptions;
    }
  }

  /** All partition rules, keyed by mount point. */
  class PartRules {
    var rules: map<string, PartRule>

    ghost predicate Valid()
      reads this, rules.Values
    {
      forall mp :: mp in rules ==> rules[mp].mountPoint == mp && rules[mp].Valid()
    }

    /** The rules as values: each mount point's option list. */
    ghost function Options(): map<string, seq<string>>
      reads this, rules.Values
    {
      map mp | mp in rules :: rules[mp].mountOptions
    }

    constructor ()
      ensures Valid() && rules == map[]
    {
      rules := map[];
    }

    /** ensure_mount_point: adds an empty rule for a mount point that has none. */
    method EnsureMountPoint(mountPoint: string)
      requires Valid()
      modifies this
      ensures Valid()
      ensures mountPoint in rules
      ensures forall mp :: mp in old(rules) ==> mp in rules && rules[mp] == old(rules)[mp]
      ensures mountPoint !in old(rules) ==> fresh(rules[mountPoint])
      ensures rules.Keys == old(rules).Keys + {mountPoint}
      ensures Options() == if mountPoint in old(Options()) then old(Options()) else old(Options())[mountPoint := []]
    {
      if mountPoint !in rules {
        var rule := new PartRule(mountPoint);
        rules := rules[mountPoint := rule];
      }
    }

    /** eval_rules: every rule evaluated in turn, in the (unspecified) order of the dictionary. */
    /** The rule of one mount point, evaluated against the planned storage. */
    method EvalRule(mp: string, storage: Storage, reportOnly: bool) returns (messages: seq<Message>)
      requires Valid() && mp in rules
      modifies storage
      ensures messages == PartMessages(mp, Options()[mp], Lookup(old(storage.mountpoints), mp))
      ensures storage.mountpoints ==
        if reportOnly || mp !in old(storage.mountpoints) then old(storage.mountpoints)
        else old(storage.mountpoints)[mp := Fix(Options()[mp], old(storage.mountpoints)[mp])]
    {
      assert rules[mp].mountOptions == Options()[mp];
      messages := rules[mp].EvalRules(storage, reportOnly);
    }

    method EvalRules(storage: Storage, reportOnly: bool) returns (messages: seq<Message>, ghost order: seq<string>)
      requires Valid()
      modifies storage
      ensures Valid() && Options() == old(Options())
      ensures IsOrdering(order, rules.Keys)
      ensures messages == PartsMessages(order, Options(), old(storage.mountpoints))
      ensures storage.mountpoints ==
        if reportOnly then old(storage.mountpoints) else Applied(Options(), old(storage.mountpoints))
    {
      ghost var planned := storage.mountpoints;
      ghost var options := Options();
      assert options.Keys == rules.Keys;
      messages, order := [], [];
      var remaining := rules.Keys;
      while remaining != {}
        invariant Valid() && Options() == options
        invariant Visited(remaining, order, messages, options, planned, storage.mountpoints, reportOnly)
        decreases remaining
      {
        var mp :| mp in remaining;
        ghost var before := storage.mountpoints;
        var m := EvalRule(mp, storage, reportOnly);
        VisitedStep(remaining, order, messages, options, planned, before, storage.mountpoints, reportOnly, mp, m);
        messages := messages + m;
        order := order + [mp];
        remaining := remaining - {mp};
      }
      assert rules.Keys - remaining == rules.Keys;
    }
  }

  /**
   * The loop state of PartRules.EvalRules: the rules not in `remaining` were evaluated in
   * `order`, producing `messages`, and (outside report mode) fixed the planned options.
   */
  ghost predicate Visited(remaining: set<string>, order: seq<string>, messages: seq<Message>,
                          rules: map<string, seq<string>>, planned: map<string, string>,
                          current: map<string, string>, reportOnly: bool)
  {
    remaining <= rules.Keys && IsOrdering(order, rules.Keys - remaining) &&
    messages == PartsMessages(order, rules, planned) &&
    current == if reportOnly then planned else AppliedTo(rules, rules.Keys - remaining, planned)
  }

  /** One more rule evaluated against the current storage keeps the loop state. */
  lemma VisitedStep(remaining: set<string>, order: seq<string>, messages: seq<Message>,
                    rules: map<string, seq<string>>, planned: map<string, string>,
                    before: map<string, string>, after: map<string, string>, reportOnly: bool,
                    mp: string, m: seq<Message>)
    requires Visited(remaining, order, messages, rules, planned, before, reportOnly)
    requires mp in remaining
    requires m == PartMessages(mp, rules[mp], Lookup(before, mp))
    requires after == if reportOnly || mp !in before then before else before[mp := Fix(rules[mp], before[mp])]
    ensures Visited(remaining - {mp}, order + [mp], messages + m, rules, planned, after, reportOnly)
  {
    var done := rules.Keys - remaining;
    VisitStep(rules.Keys, remaining, mp);
    OrderingSnoc(order, done, mp);
    AppliedStep(rules, done, mp, planned);
    PartsMessagesSnoc(order, mp, rules, planned);
  }

  lemma AppliedStep(rules: map<string, seq<string>>, done: set<string>, mp: string, mountpoints: map<string, string>)
    requires mp in rules && mp !in done
    ensures Lookup(AppliedTo(rules, done, mountpoints), mp) == Lookup(mountpoints, mp)
    ensures AppliedTo(rules, done + {mp}, mountpoints) ==
      if mp in mountpoints then AppliedTo(rules, done, mountpoints)[mp := Fix(rules[mp], mountpoints[mp])]
      else AppliedTo(rules, done, mountpoints)
  {
  }

  lemma PartsMessagesSnoc(order: seq<string>, mp: string, rules: map<string, seq<string>>, mountpoints: map<string, string>)
    requires forall x :: x in order ==> x in rules
    requires mp in rules
    ensures PartsMessages(order + [mp], rules, mountpoints) ==
      PartsMessages(order, rules, mountpoints) + PartMessages(mp, rules[mp], Lookup(mountpoints, mp))
  {
    assert (order + [mp])[..|order|] == order;
  }
}
