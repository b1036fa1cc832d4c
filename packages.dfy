/**
 * Package rules: a set of packages to install and a set to exclude. Evaluation reports every
 * package and, in apply mode, appends to the kickstart lists those not listed yet.
 */
module Packages {
  import opened Wrappers
  import opened Seqs
  import opened Messages
  import opened SystemState

  /** The packages an optional list names (Python: None and [] name none). */
  function Members(packages: Option<seq<string>>): (r: set<string>)
    ensures forall p :: p in r <==> packages.Some? && p in packages.value
  {
    if packages.Some? then set p | p in packages.value else {}
  }

  /** One Info message per package to be installed, in the given order. */
  function InstallMessages(packages: seq<string>): (r: seq<Message>)
    ensures |r| == |packages|
    ensures forall k :: 0 <= k < |r| ==> r[k] == Message(Info, PackageAdded(packages[k]))
  {
    if packages == [] then []
    else InstallMessages(packages[..|packages| - 1]) + [Message(Info, PackageAdded(packages[|packages| - 1]))]
  }

  /** One Info message per package to be excluded, in the given order. */
  function ExcludeMessages(packages: seq<string>): (r: seq<Message>)
    ensures |r| == |packages|
    ensures forall k :: 0 <= k < |r| ==> r[k] == Message(Info, PackageExcluded(packages[k]))
  {
    if packages == [] then []
    else ExcludeMessages(packages[..|packages| - 1]) + [Message(Info, PackageExcluded(packages[|packages| - 1]))]
  }

  lemma InstallMessagesSnoc(packages: seq<string>, p: string)
    ensures InstallMessages(packages + [p]) == InstallMessages(packages) + [Message(Info, PackageAdded(p))]
  {
    assert (packages + [p])[..|packages|] == packages;
  }

  lemma ExcludeMessagesSnoc(packages: seq<string>, p: string)
    ensures ExcludeMessages(packages + [p]) == ExcludeMessages(packages) + [Message(Info, PackageExcluded(p))]
  {
    assert (packages + [p])[..|packages|] == packages;
  }

  lemma AppendAbsentSnoc(list: seq<string>, items: seq<string>, p: string)
    ensures AppendAbsent(list, items + [p]) ==
      var before := AppendAbsent(list, items); if p in before then before else before + [p]
  {
    assert (items + [p])[..|items|] == items;
  }

  class PackageRules {
    var addPkgs: set<string>
    var removePkgs: set<string>

    constructor ()
      ensures addPkgs == {} && removePkgs == {}
    {
      addPkgs := {};
      removePkgs := {};
    }

    /** add_packages: adds the named packages to the set to install; None or [] adds nothing. */
    method AddPackages(packages: Option<seq<string>>)
      modifies this
      ensures addPkgs == old(addPkgs) + Members(packages)
      ensures removePkgs == old(removePkgs)
    {
      if packages.Some? && packages.value != [] {
        addPkgs := addPkgs + set p | p in packages.value;
      }
    }

    /** remove_packages: adds the named packages to the set to exclude; None or [] adds nothing. */
    method RemovePackages(packages: Option<seq<string>>)
      modifies this
      ensures removePkgs == old(removePkgs) + Members(packages)
      ensures addPkgs == old(addPkgs)
    {
      if packages.Some? && packages.value != [] {
        removePkgs := removePkgs + set p | p in packages.value;
      }
    }

    /**
     * eval_rules: an Info message for every package of both sets, on every run; in apply mode
     * each package not yet in the kickstart list is appended to it. The sets are visited in an
     * unspecified order, returned as `addOrder` and `removeOrder`.
     */
    method EvalRules(ksdata: PackageSelection, reportOnly: bool)
      returns (messages: seq<Message>, ghost addOrder: seq<string>, ghost removeOrder: seq<string>)
      modifies ksdata
      ensures IsOrdering(addOrder, addPkgs) && IsOrdering(removeOrder, removePkgs)
      ensures messages == InstallMessages(addOrder) + ExcludeMessages(removeOrder)
      ensures ksdata.packageList ==
        if reportOnly then old(ksdata.packageList) else AppendAbsent(old(ksdata.packageList), addOrder)
      ensures ksdata.excludedList ==
        if reportOnly then old(ksdata.excludedList) else AppendAbsent(old(ksdata.excludedList), removeOrder)
    {
      var installed, excluded;
      installed, addOrder := EvalInstall(ksdata, reportOnly);
      excluded, removeOrder := EvalExclude(ksdata, reportOnly);
      messages := installed + excluded;
    }

    /** The first loop of eval_rules: the packages to install. */
    method EvalInstall(ksdata: PackageSelection, reportOnly: bool) returns (messages: seq<Message>, ghost order: seq<string>)
      modifies ksdata`packageList
      ensures IsOrdering(order, addPkgs)
      ensures messages == InstallMessages(order)
      ensures ksdata.packageList ==
        if reportOnly then old(ksdata.packageList) else AppendAbsent(old(ksdata.packageList), order)
    {
      messages, order := [], [];
      var remaining := addPkgs;
      while remaining != {}
        invariant remaining <= addPkgs
        invariant IsOrdering(order, addPkgs - remaining)
        invariant messages == InstallMessages(order)
        invariant ksdata.packageList ==
          if reportOnly then old(ksdata.packageList) else AppendAbsent(old(ksdata.packageList), order)
        decreases remaining
      {
        var p :| p in remaining;
        AppendAbsentSnoc(old(ksdata.packageList), order, p);
        InstallMessagesSnoc(order, p);
        VisitStep(addPkgs, remaining, p);
        OrderingSnoc(order, addPkgs - remaining, p);
        if !reportOnly && p !in ksdata.packageList {
          ksdata.packageList := ksdata.packageList + [p];
        }
        messages := messages + [Message(Info, PackageAdded(p))];
        order := order + [p];
        remaining := remaining - {p};
      }
    }

    /** The second loop of eval_rules: the packages to exclude. */
    method EvalExclude(ksdata: PackageSelection, reportOnly: bool) returns (messages: seq<Message>, ghost order: seq<string>)
      modifies ksdata`excludedList
      ensures IsOrdering(order, removePkgs)
      ensures messages == ExcludeMessages(order)
      ensures ksdata.excludedList ==
        if reportOnly then old(ksdata.excludedList) else AppendAbsent(old(ksdata.excludedList), order)
    {
      messages, order := [], [];
      var remaining := removePkgs;
      while remaining != {}
        invariant remaining <= removePkgs
        invariant IsOrdering(order, removePkgs - remaining)
        invariant messages == ExcludeMessages(order)
        invariant ksdata.excludedList ==
          if reportOnly then old(ksdata.excludedList) else AppendAbsent(old(ksdata.excludedList), order)
        decreases remaining
      {
        var p :| p in remaining;
        AppendAbsentSnoc(old(ksdata.excludedList), order, p);
        ExcludeMessagesSnoc(order, p);
        VisitStep(removePkgs, remaining, p);
        OrderingSnoc(order, removePkgs - remaining, p);
        if !reportOnly && p !in ksdata.excludedList {
          ksdata.excludedList := ksdata.excludedList + [p];
        }
        messages := messages + [Message(Info, PackageExcluded(p))];
        order := order + [p];
        remaining := remaining - {p};
      }
    }
  }

  /** Every evaluation reports each package of both sets exactly once. */
  lemma PackageMessageCount(add: set<string>, remove: set<string>, addOrder: seq<string>, removeOrder: seq<string>)
    requires IsOrdering(addOrder, add) && IsOrdering(removeOrder, remove)
    ensures |InstallMessages(addOrder) + ExcludeMessages(removeOrder)| == |add| + |remove|
  {
    OrderingCardinality(addOrder, add);
    OrderingCardinality(removeOrder, remove);
  }
}
