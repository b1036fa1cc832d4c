/** Lists of names used as ordered sets: lists without duplicates and "append unless present". */
module Seqs {

  predicate NoDuplicates(s: seq<string>) {
    forall i, j :: 0 <= i < j < |s| ==> s[i] != s[j]
  }

  lemma ConcatAssociates<T>(x: seq<T>, y: seq<T>, z: seq<T>)
    ensures x + y + z == x + (y + z)
  {
  }

  lemma ConcatEmpty<T>(s: seq<T>)
    ensures [] + s == s && s + [] == s
  {
  }

  lemma HeadTail(s: seq<string>)
    requires s != []
    ensures [s[0]] + s[1..] == s
  {
  }

  lemma InitLast(s: seq<string>)
    requires s != []
    ensures s[..|s| - 1] + [s[|s| - 1]] == s
  {
  }

  /** `order` lists every element of `elems` exactly once: one possible iteration order of a set. */
  ghost predicate IsOrdering(order: seq<string>, elems: set<string>) {
    NoDuplicates(order) && (forall x :: x in order <==> x in elems)
  }

  lemma OrderingSnoc(order: seq<string>, elems: set<string>, x: string)
    requires IsOrdering(order, elems) && x !in elems
    ensures IsOrdering(order + [x], elems + {x})
  {
  }

  /** Moving one element from `remaining` to the visited part of `all`. */
  lemma VisitStep(all: set<string>, remaining: set<string>, x: string)
    requires remaining <= all && x in remaining
    ensures all - (remaining - {x}) == (all - remaining) + {x}
    ensures x !in all - remaining
  {
  }

  lemma {:induction false} OrderingCardinality(order: seq<string>, elems: set<string>)
    requires IsOrdering(order, elems)
    ensures |order| == |elems|
  {
    if order != [] {
      var last := order[|order| - 1];
      var init := order[..|order| - 1];
      assert order == init + [last];
      assert last !in init by {
        assert forall i :: 0 <= i < |init| ==> init[i] == order[i] != order[|order| - 1];
      }
      assert IsOrdering(init, elems - {last}) by {
        forall x ensures x in init <==> x in elems - {last} {
          if x in init { assert x != last; }
          if x in elems - {last} {
            assert x in order;
            var i :| 0 <= i < |order| && order[i] == x;
            assert i != |order| - 1;
            assert init[i] == x;
          }
        }
      }
      OrderingCardinality(init, elems - {last});
    }
  }

  /**
   * Appends the elements of `items`, left to right, each one only when the list built so far
   * does not already hold it (Python: `if x not in lst: lst.append(x)` in a loop).
   */
  function AppendAbsent(list: seq<string>, items: seq<string>): (r: seq<string>)
    ensures |list| <= |r| && r[..|list|] == list
    ensures forall x :: x in r <==> x in list || x in items
    ensures forall i :: |list| <= i < |r| ==> r[i] in items && r[i] !in list
    ensures forall i, j :: |list| <= i < j < |r| ==> r[i] != r[j]
    ensures NoDuplicates(list) ==> NoDuplicates(r)
  {
    if items == [] then list
    else
      var before := AppendAbsent(list, items[..|items| - 1]);
      var x := items[|items| - 1];
      assert forall y :: y in items <==> y in items[..|items| - 1] || y == x by {
        assert items == items[..|items| - 1] + [x];
      }
      if x in before then before else before + [x]
  }

  /** Appending items that are all present already changes nothing. */
  lemma {:induction false} AppendAbsentPresent(list: seq<string>, items: seq<string>)
    requires forall x :: x in items ==> x in list
    ensures AppendAbsent(list, items) == list
  {
    if items != [] {
      var init := items[..|items| - 1];
      assert forall x :: x in init ==> x in items;
      AppendAbsentPresent(list, init);
      assert items[|items| - 1] in items;
    }
  }

  /** Appending the same items twice, in any order, is the same as appending them once. */
  lemma AppendAbsentIdempotent(list: seq<string>, items: seq<string>, again: seq<string>)
    requires forall x :: x in again ==> x in items
    ensures AppendAbsent(AppendAbsent(list, items), again) == AppendAbsent(list, items)
  {
    AppendAbsentPresent(AppendAbsent(list, items), again);
  }

  /** Position of the first occurrence of `x` in `s`. */
  function FirstIndex(s: seq<string>, x: string): (i: nat)
    requires x in s
    ensures i < |s| && s[i] == x && x !in s[..i]
  {
    if s[0] == x then 0 else 1 + FirstIndex(s[1..], x)
  }

  lemma {:induction false} FirstIndexAppend(s: seq<string>, y: string, x: string)
    requires x in s
    ensures FirstIndex(s + [y], x) == FirstIndex(s, x)
  {
    if s[0] != x {
      assert (s + [y])[1..] == s[1..] + [y];
      FirstIndexAppend(s[1..], y, x);
    }
  }

  /**
   * The elements AppendAbsent adds appear in the order of their first occurrence in `items`.
   */
  lemma AppendAbsentFirstSeenOrder(list: seq<string>, items: seq<string>)
    ensures var r := AppendAbsent(list, items);
      forall i, j :: |list| <= i < j < |r| ==>
        r[i] in items && r[j] in items && FirstIndex(items, r[i]) < FirstIndex(items, r[j])
  {
    var r := AppendAbsent(list, items);
    forall i, j | |list| <= i < j < |r|
      ensures r[i] in items && r[j] in items && FirstIndex(items, r[i]) < FirstIndex(items, r[j])
    {
      FirstSeenPair(list, items, i, j);
    }
  }

  lemma {:induction false} FirstSeenPair(list: seq<string>, items: seq<string>, i: nat, j: nat)
    requires |list| <= i < j < |AppendAbsent(list, items)|
    ensures var r := AppendAbsent(list, items);
      r[i] in items && r[j] in items && FirstIndex(items, r[i]) < FirstIndex(items, r[j])
  {
    var r := AppendAbsent(list, items);
    var init := items[..|items| - 1];
    var x := items[|items| - 1];
    assert items == init + [x];
    var before := AppendAbsent(list, init);
    assert r[i] == before[i] && r[i] in init;
    FirstIndexAppend(init, x, r[i]);
    if j < |before| {
      assert r[j] == before[j];
      FirstSeenPair(list, init, i, j);
      FirstIndexAppend(init, x, r[j]);
    } else {
      assert r[j] == x && x !in init;
      assert FirstIndex(items, x) == |init| by {
        assert forall m :: 0 <= m < |init| ==> items[m] == init[m] != x;
      }
    }
  }
}
