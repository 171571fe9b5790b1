/** Operations on a graded commit's violation list: the `filter`, `some`,
    `push` and `sort((a, b) => a.rule - b.rule)` calls of the reconciler. */
module Violations {
  import opened Models

  /** How many entries of `vs` name `rule`. */
  function Count(vs: seq<Violation>, rule: int): nat {
    multiset(vs)[Violation(rule)]
  }

  /** `vs.some(v => v.rule === rule)`. */
  predicate HasRule(vs: seq<Violation>, rule: int) {
    Violation(rule) in vs
  }

  /** `vs.filter(v => v.rule !== rule)`: every entry for `rule` dropped, all
      others kept with their multiplicities, in order. */
  function WithoutRule(vs: seq<Violation>, rule: int): (r: seq<Violation>)
    ensures forall v :: multiset(r)[v] == if v.rule == rule then 0 else multiset(vs)[v]
    ensures |r| <= |vs|
  {
    if vs == [] then []
    else
      assert vs == [vs[0]] + vs[1..];
      (if vs[0].rule == rule then [] else [vs[0]]) + WithoutRule(vs[1..], rule)
  }

  /** `if (!vs.some(v => v.rule === rule)) vs.push({ rule })`: afterwards the
      rule is present exactly once if it was absent, and nothing else
      changes. */
  function EnsureRule(vs: seq<Violation>, rule: int): (r: seq<Violation>)
    ensures HasRule(r, rule)
    ensures forall v :: multiset(r)[v] == (if v == Violation(rule) && multiset(vs)[v] == 0 then 1 else multiset(vs)[v])
    ensures |r| <= |vs| + 1
  {
    if HasRule(vs, rule) then vs else vs + [Violation(rule)]
  }

  /** Ascending by rule number. */
  predicate SortedByRule(vs: seq<Violation>) {
    forall i, j :: 0 <= i < j < |vs| ==> vs[i].rule <= vs[j].rule
  }

  /** Insertion of one entry into a sorted list. */
  function Insert(v: Violation, vs: seq<Violation>): (r: seq<Violation>)
    requires SortedByRule(vs)
    ensures SortedByRule(r)
    ensures multiset(r) == multiset(vs) + multiset{v}
    ensures vs == [] || v.rule <= vs[0].rule ==> r == [v] + vs
  {
    if vs == [] || v.rule <= vs[0].rule then [v] + vs
    else
      var tail := Insert(v, vs[1..]);
      assert vs == [vs[0]] + vs[1..];
      forall x | x in tail
        ensures vs[0].rule <= x.rule
      {
        assert x in multiset(tail);
        if x != v {
          assert x in multiset(vs);
          SortedHeadSmallest(vs, x);
        }
      }
      [vs[0]] + tail
  }

  /** `vs.sort((a, b) => a.rule - b.rule)`: a sorted permutation. */
  function SortByRule(vs: seq<Violation>): (r: seq<Violation>)
    ensures SortedByRule(r)
    ensures multiset(r) == multiset(vs)
  {
    if vs == [] then []
    else
      assert vs == [vs[0]] + vs[1..];
      Insert(vs[0], SortByRule(vs[1..]))
  }

  /** Sorting an already sorted list changes nothing. */
  lemma {:induction false} SortSorted(vs: seq<Violation>)
    requires SortedByRule(vs)
    ensures SortByRule(vs) == vs
  {
    if vs != [] {
      SortSorted(vs[1..]);
      assert vs == [vs[0]] + vs[1..];
    }
  }

  /** The head of a sorted list has the smallest rule number. */
  lemma SortedHeadSmallest(s: seq<Violation>, x: Violation)
    requires SortedByRule(s) && x in multiset(s)
    ensures s[0].rule <= x.rule
  {
    var k :| 0 <= k < |s| && s[k] == x;
  }

  /** Removing the head of a list removes one copy from its multiset and
      keeps it sorted. */
  lemma SortedTail(s: seq<Violation>)
    requires s != [] && SortedByRule(s)
    ensures SortedByRule(s[1..])
    ensures multiset(s[1..]) == multiset(s) - multiset{s[0]}
  {
    assert s == [s[0]] + s[1..];
  }

  /** Two sorted lists with the same multiset start with the same entry. */
  lemma SortedHeadsAgree(s: seq<Violation>, t: seq<Violation>)
    requires s != [] && SortedByRule(s) && SortedByRule(t)
    requires multiset(s) == multiset(t)
    ensures t != [] && s[0] == t[0]
  {
    assert s[0] in multiset(t) && t[0] in multiset(s);
    SortedHeadSmallest(s, t[0]);
    SortedHeadSmallest(t, s[0]);
    assert s[0] == Violation(s[0].rule) && t[0] == Violation(t[0].rule);
  }

  /** A violation is identified by its rule number alone, so there is only
      one sorted arrangement of a given multiset: any sort that orders by
      rule yields `SortByRule`, stable or not. */
  lemma {:induction false} SortedPermutationUnique(s: seq<Violation>, t: seq<Violation>)
    requires SortedByRule(s) && SortedByRule(t)
    requires multiset(s) == multiset(t)
    ensures s == t
    decreases |s|
  {
    if s != [] {
      SortedHeadsAgree(s, t);
      SortedTail(s);
      SortedTail(t);
      SortedPermutationUnique(s[1..], t[1..]);
      assert s == [s[0]] + s[1..] && t == [t[0]] + t[1..];
    } else {
      assert |t| == |multiset(t)| == 0;
    }
  }

  /** No rule number listed twice. */
  ghost predicate NoDuplicateRules(vs: seq<Violation>) {
    forall v :: multiset(vs)[v] <= 1
  }
}
