/**
 * `JSLeakCheck._MatchSuppressions` of src/jsleakcheck.py: every leak that has
 * a creation stack is counted against the first loaded suppression that
 * matches it; one that matches none is counted against the first earlier
 * new-leak group whose synthetic suppression matches it, or starts a new
 * group of its own. The dictionary `matched_suppressions` becomes a map from
 * suppression index to count, `new_leaks` a sequence of groups.
 */
module LeakCheck {
  import opened Wrappers
  import opened Suppressions

  /**
   * A found leak as the matching sees it: the class name of the leaked object
   * and the frames of its creation stack, `None` when it has no stack.
   */
  datatype Leak = Leak(className: string, frames: Option<seq<string>>)

  /** An entry of `new_leaks`: its synthetic suppression, its count and the leak that started it. */
  datatype Group = Group(suppression: Suppression, count: nat, leak: Leak)

  /** The state of the loop: `matched_suppressions` and `new_leaks`. */
  datatype Tally = Tally(matched: map<nat, nat>, groups: seq<Group>)

  /** The first of `sups`, from `i` on, that matches the class name and frames (the `for ...: if ...: break`). */
  function FirstMatch(sups: seq<Suppression>, cls: string, frames: seq<string>, i: nat): (r: Option<nat>)
    ensures r.Some? ==> i <= r.value < |sups|
    decreases |sups| - i
  {
    if i >= |sups| then None
    else if sups[i].Match(cls, frames) then Some(i)
    else FirstMatch(sups, cls, frames, i + 1)
  }

  /** The loop finds nothing exactly when no suppression from `i` on matches. */
  lemma {:induction false} FirstMatchNone(sups: seq<Suppression>, cls: string, frames: seq<string>, i: nat)
    ensures FirstMatch(sups, cls, frames, i).None? <==> forall j :: i <= j < |sups| ==> !sups[j].Match(cls, frames)
    decreases |sups| - i
  {
    if i < |sups| && !sups[i].Match(cls, frames) {
      FirstMatchNone(sups, cls, frames, i + 1);
      assert FirstMatch(sups, cls, frames, i) == FirstMatch(sups, cls, frames, i + 1);
    }
  }

  /** What the loop finds matches, and nothing before it does. */
  lemma {:induction false} FirstMatchFirst(sups: seq<Suppression>, cls: string, frames: seq<string>, i: nat)
    ensures FirstMatch(sups, cls, frames, i).Some? ==>
      var j := FirstMatch(sups, cls, frames, i).value;
      sups[j].Match(cls, frames) && forall j' :: i <= j' < j ==> !sups[j'].Match(cls, frames)
    decreases |sups| - i
  {
    if i < |sups| && !sups[i].Match(cls, frames) {
      FirstMatchFirst(sups, cls, frames, i + 1);
      assert FirstMatch(sups, cls, frames, i) == FirstMatch(sups, cls, frames, i + 1);
    }
  }

  lemma FirstMatchIsFirst(sups: seq<Suppression>, cls: string, frames: seq<string>, i: nat)
    ensures FirstMatch(sups, cls, frames, i).None? <==> forall j :: i <= j < |sups| ==> !sups[j].Match(cls, frames)
    ensures FirstMatch(sups, cls, frames, i).Some? ==>
      var j := FirstMatch(sups, cls, frames, i).value;
      sups[j].Match(cls, frames) && forall j' :: i <= j' < j ==> !sups[j'].Match(cls, frames)
  {
    FirstMatchNone(sups, cls, frames, i);
    FirstMatchFirst(sups, cls, frames, i);
  }

  /** The synthetic suppressions of the groups, in creation order. */
  function Patterns(groups: seq<Group>): (r: seq<Suppression>)
    ensures |r| == |groups| && forall j :: 0 <= j < |groups| ==> r[j] == groups[j].suppression
  {
    seq(|groups|, j requires 0 <= j < |groups| => groups[j].suppression)
  }

  /** `matched_suppressions.get(index, 0)`. */
  function Count(m: map<nat, nat>, i: nat): nat {
    if i in m then m[i] else 0
  }

  /** One round of the loop over the leaks. */
  function Step(sups: seq<Suppression>, t: Tally, leak: Leak): Tally {
    match leak.frames
    case None => t
    case Some(frames) =>
      match FirstMatch(sups, leak.className, frames, 0)
      case Some(i) => t.(matched := t.matched[i := Count(t.matched, i) + 1])
      case None =>
        match FirstMatch(Patterns(t.groups), leak.className, frames, 0)
        case Some(j) => t.(groups := t.groups[j := t.groups[j].(count := t.groups[j].count + 1)])
        case None => t.(groups := t.groups + [Group(Suppression("", leak.className, frames), 1, leak)])
  }

  /** The state after the loop has seen `leaks`. */
  function Tallied(sups: seq<Suppression>, leaks: seq<Leak>): Tally
    decreases |leaks|
  {
    if leaks == [] then Tally(map[], [])
    else Step(sups, Tallied(sups, leaks[..|leaks| - 1]), leaks[|leaks| - 1])
  }

  // ---------------------------------------------------------------------
  // The loops

  /** The loop over the loaded suppressions. */
  method FindSuppression(sups: seq<Suppression>, cls: string, frames: seq<string>) returns (r: Option<nat>)
    ensures r == FirstMatch(sups, cls, frames, 0)
  {
    var i := 0;
    while i < |sups|
      invariant i <= |sups| && FirstMatch(sups, cls, frames, 0) == FirstMatch(sups, cls, frames, i)
    {
      if sups[i].Match(cls, frames) {
        return Some(i);
      }
      i := i + 1;
    }
    return None;
  }

  /** The loop over `new_leaks`. */
  method FindGroup(groups: seq<Group>, cls: string, frames: seq<string>) returns (r: Option<nat>)
    ensures r == FirstMatch(Patterns(groups), cls, frames, 0)
  {
    var j := 0;
    while j < |groups|
      invariant j <= |groups| && FirstMatch(Patterns(groups), cls, frames, 0) == FirstMatch(Patterns(groups), cls, frames, j)
    {
      if groups[j].suppression.Match(cls, frames) {
        return Some(j);
      }
      j := j + 1;
    }
    return None;
  }

  /**
   * `_MatchSuppressions(leaks)`: returns the counts of the loaded suppressions
   * that matched (which the source prints) and the new-leak groups (which it
   * prints and returns).
   */
  method MatchSuppressions(sups: seq<Suppression>, leaks: seq<Leak>) returns (matched: map<nat, nat>, groups: seq<Group>)
    ensures Tally(matched, groups) == Tallied(sups, leaks)
  {
    matched, groups := map[], [];
    for n := 0 to |leaks|
      invariant Tally(matched, groups) == Tallied(sups, leaks[..n])
    {
      var leak := leaks[n];
      assert leaks[..n + 1][..n] == leaks[..n];
      if leak.frames.None? {
        continue;
      }
      var frames := leak.frames.value;
      var i := FindSuppression(sups, leak.className, frames);
      if i.Some? {
        matched := matched[i.value := Count(matched, i.value) + 1];
      } else {
        var j := FindGroup(groups, leak.className, frames);
        if j.Some? {
          groups := groups[j.value := groups[j.value].(count := groups[j.value].count + 1)];
        } else {
          groups := groups + [Group(Suppression("", leak.className, frames), 1, leak)];
        }
      }
    }
    assert leaks[..|leaks|] == leaks;
  }

  // ---------------------------------------------------------------------
  // One leak

  /**
   * A leak with a stack adds one to the count of loaded suppression `i`
   * exactly when `i` is the first loaded suppression that matches it; when
   * any loaded suppression matches, the groups are left alone.
   */
  lemma StepCountsFirstMatch(sups: seq<Suppression>, t: Tally, leak: Leak, i: nat)
    requires leak.frames.Some?
    ensures Count(Step(sups, t, leak).matched, i) ==
      Count(t.matched, i) + if i < |sups| && sups[i].Match(leak.className, leak.frames.value) &&
        forall j :: 0 <= j < i ==> !sups[j].Match(leak.className, leak.frames.value) then 1 else 0
    ensures (exists j :: 0 <= j < |sups| && sups[j].Match(leak.className, leak.frames.value)) ==>
      Step(sups, t, leak).groups == t.groups
  {
    FirstMatchIsFirst(sups, leak.className, leak.frames.value, 0);
  }

  /**
   * A leak with a stack that no loaded suppression matches adds one to the
   * count of group `j` exactly when `j` is the first group whose suppression
   * matches it, keeps every group's suppression and first leak and leaves the
   * loaded suppressions' counts alone; it appends a group exactly when no
   * group matches, and that group is this leak's, with its synthetic
   * suppression and a count of one.
   */
  lemma StepCountsFirstGroup(sups: seq<Suppression>, t: Tally, leak: Leak, j: nat)
    requires leak.frames.Some? && FirstMatch(sups, leak.className, leak.frames.value, 0).None?
    requires j < |t.groups|
    ensures Step(sups, t, leak).matched == t.matched
    ensures j < |Step(sups, t, leak).groups| && Step(sups, t, leak).groups[j].suppression == t.groups[j].suppression
    ensures Step(sups, t, leak).groups[j].leak == t.groups[j].leak
    ensures Step(sups, t, leak).groups[j].count ==
      t.groups[j].count + if t.groups[j].suppression.Match(leak.className, leak.frames.value) &&
        forall k :: 0 <= k < j ==> !t.groups[k].suppression.Match(leak.className, leak.frames.value) then 1 else 0
    ensures |Step(sups, t, leak).groups| == |t.groups| + 1 <==>
      forall k :: 0 <= k < |t.groups| ==> !t.groups[k].suppression.Match(leak.className, leak.frames.value)
    ensures (forall k :: 0 <= k < |t.groups| ==> !t.groups[k].suppression.Match(leak.className, leak.frames.value)) ==>
      Step(sups, t, leak).groups == t.groups + [Group(Suppression("", leak.className, leak.frames.value), 1, leak)]
  {
    FirstMatchIsFirst(Patterns(t.groups), leak.className, leak.frames.value, 0);
  }

  // ---------------------------------------------------------------------
  // Every leak with a stack is counted once

  /** The number of leaks that have a creation stack. */
  function WithStack(leaks: seq<Leak>): nat {
    if leaks == [] then 0
    else WithStack(leaks[..|leaks| - 1]) + (if leaks[|leaks| - 1].frames.Some? then 1 else 0)
  }

  /** The sum of the counts of the first `n` loaded suppressions. */
  function MatchedTotal(m: map<nat, nat>, n: nat): nat {
    if n == 0 then 0 else MatchedTotal(m, n - 1) + Count(m, n - 1)
  }

  /** The sum of the group counts. */
  function GroupTotal(groups: seq<Group>): nat {
    if groups == [] then 0 else GroupTotal(groups[..|groups| - 1]) + groups[|groups| - 1].count
  }

  lemma {:induction false} MatchedTotalInc(m: map<nat, nat>, n: nat, i: nat)
    ensures MatchedTotal(m[i := Count(m, i) + 1], n) == MatchedTotal(m, n) + (if i < n then 1 else 0)
  {
    if n > 0 {
      MatchedTotalInc(m, n - 1, i);
    }
  }

  lemma {:induction false} GroupTotalInc(groups: seq<Group>, j: nat)
    requires j < |groups|
    ensures GroupTotal(groups[j := groups[j].(count := groups[j].count + 1)]) == GroupTotal(groups) + 1
    decreases |groups|
  {
    var gs := groups[j := groups[j].(count := groups[j].count + 1)];
    var n := |groups| - 1;
    assert gs[..n] == if j < n then groups[..n][j := groups[j].(count := groups[j].count + 1)] else groups[..n];
    if j < n {
      GroupTotalInc(groups[..n], j);
    }
  }

  lemma {:induction false} MatchedTotalEmpty(n: nat)
    ensures MatchedTotal(map[], n) == 0
  {
    if n > 0 {
      MatchedTotalEmpty(n - 1);
    }
  }

  /** Every index in `matched_suppressions` is the index of a loaded suppression. */
  predicate KeysBelow(m: map<nat, nat>, n: nat) {
    forall i :: i in m ==> i < n
  }

  /** The counts of the loaded suppressions and of the groups together. */
  function Total(sups: seq<Suppression>, t: Tally): nat {
    MatchedTotal(t.matched, |sups|) + GroupTotal(t.groups)
  }

  // The three outcomes of one step for a leak with a creation stack.

  lemma StepLoaded(sups: seq<Suppression>, t: Tally, leak: Leak, i: nat)
    requires KeysBelow(t.matched, |sups|)
    requires leak.frames.Some? && FirstMatch(sups, leak.className, leak.frames.value, 0) == Some(i)
    ensures KeysBelow(Step(sups, t, leak).matched, |sups|)
    ensures Total(sups, Step(sups, t, leak)) == Total(sups, t) + 1
  {
    var r := t.(matched := t.matched[i := Count(t.matched, i) + 1]);
    assert Step(sups, t, leak) == r;
    MatchedTotalInc(t.matched, |sups|, i);
  }

  lemma StepGrouped(sups: seq<Suppression>, t: Tally, leak: Leak, j: nat)
    requires leak.frames.Some? && FirstMatch(sups, leak.className, leak.frames.value, 0).None?
    requires FirstMatch(Patterns(t.groups), leak.className, leak.frames.value, 0) == Some(j)
    ensures Step(sups, t, leak).matched == t.matched
    ensures Total(sups, Step(sups, t, leak)) == Total(sups, t) + 1
  {
    assert j < |t.groups|;
    var r := t.(groups := t.groups[j := t.groups[j].(count := t.groups[j].count + 1)]);
    assert Step(sups, t, leak) == r;
    GroupTotalInc(t.groups, j);
  }

  lemma StepNewGroup(sups: seq<Suppression>, t: Tally, leak: Leak)
    requires leak.frames.Some? && FirstMatch(sups, leak.className, leak.frames.value, 0).None?
    requires FirstMatch(Patterns(t.groups), leak.className, leak.frames.value, 0).None?
    ensures Step(sups, t, leak).matched == t.matched
    ensures Total(sups, Step(sups, t, leak)) == Total(sups, t) + 1
  {
    var gs := t.groups + [Group(Suppression("", leak.className, leak.frames.value), 1, leak)];
    assert Step(sups, t, leak) == t.(groups := gs);
    assert gs[..|gs| - 1] == t.groups;
  }

  /** One step of the loop increments exactly one counter for a leak with a creation stack. */
  lemma StepTotal(sups: seq<Suppression>, t: Tally, leak: Leak)
    requires KeysBelow(t.matched, |sups|)
    ensures KeysBelow(Step(sups, t, leak).matched, |sups|)
    ensures Total(sups, Step(sups, t, leak)) == Total(sups, t) + (if leak.frames.Some? then 1 else 0)
  {
    if leak.frames.Some? {
      var frames := leak.frames.value;
      var loaded := FirstMatch(sups, leak.className, frames, 0);
      if loaded.Some? {
        StepLoaded(sups, t, leak, loaded.value);
      } else {
        var grouped := FirstMatch(Patterns(t.groups), leak.className, frames, 0);
        if grouped.Some? {
          StepGrouped(sups, t, leak, grouped.value);
        } else {
          StepNewGroup(sups, t, leak);
        }
      }
    } else {
      assert Step(sups, t, leak) == t;
    }
  }

  /**
   * Each leak with a creation stack increments exactly one counter: the
   * counts of the loaded suppressions and of the groups add up to the
   * number of such leaks.
   */
  lemma {:induction false} TalliedTotal(sups: seq<Suppression>, leaks: seq<Leak>)
    ensures KeysBelow(Tallied(sups, leaks).matched, |sups|)
    ensures Total(sups, Tallied(sups, leaks)) == WithStack(leaks)
    decreases |leaks|
  {
    if leaks != [] {
      var init := leaks[..|leaks| - 1];
      var leak := leaks[|leaks| - 1];
      TalliedTotal(sups, init);
      StepTotal(sups, Tallied(sups, init), leak);
    } else {
      MatchedTotalEmpty(|sups|);
    }
  }

  // ---------------------------------------------------------------------
  // The groups

  /**
   * A group is what the loop creates for a leak that matched no loaded
   * suppression: the synthetic suppression of its first leak, with a
   * positive count, and a count of one if that leak had no frames (its
   * synthetic suppression is empty and matches nothing).
   */
  predicate GroupOf(sups: seq<Suppression>, g: Group) {
    g.leak.frames.Some? && g.suppression == Suppression("", g.leak.className, g.leak.frames.value) &&
    g.count >= 1 && FirstMatch(sups, g.leak.className, g.leak.frames.value, 0).None? &&
    (g.leak.frames.value == [] ==> g.count == 1)
  }

  lemma {:induction false} TalliedGroups(sups: seq<Suppression>, leaks: seq<Leak>)
    ensures forall j :: 0 <= j < |Tallied(sups, leaks).groups| ==> GroupOf(sups, Tallied(sups, leaks).groups[j])
    decreases |leaks|
  {
    if leaks != [] {
      var init := leaks[..|leaks| - 1];
      var leak := leaks[|leaks| - 1];
      TalliedGroups(sups, init);
      var t := Tallied(sups, init);
      assert Tallied(sups, leaks) == Step(sups, t, leak);
      if leak.frames.Some? {
        var frames := leak.frames.value;
        if FirstMatch(sups, leak.className, frames, 0).None? {
          match FirstMatch(Patterns(t.groups), leak.className, frames, 0)
          case Some(j) =>
            FirstMatchIsFirst(Patterns(t.groups), leak.className, frames, 0);
            var g := t.groups[j];
            assert GroupOf(sups, g);
            assert g.suppression.Match(leak.className, frames);
            assert g.leak.frames.value != [];
            var gs := t.groups[j := g.(count := g.count + 1)];
            assert forall k :: 0 <= k < |gs| ==> gs[k] == t.groups[k] || gs[k] == g.(count := g.count + 1);
          case None =>
            var gs := t.groups + [Group(Suppression("", leak.className, frames), 1, leak)];
            assert forall k :: 0 <= k < |t.groups| ==> gs[k] == t.groups[k];
        }
      }
    }
  }

  /** One step keeps the first leak of every group and gives a new group the leak just seen. */
  lemma StepGroupLeaks(sups: seq<Suppression>, t: Tally, leak: Leak)
    ensures |t.groups| <= |Step(sups, t, leak).groups| <= |t.groups| + 1
    ensures forall j :: 0 <= j < |t.groups| ==> Step(sups, t, leak).groups[j].leak == t.groups[j].leak
    ensures |Step(sups, t, leak).groups| == |t.groups| + 1 ==> Step(sups, t, leak).groups[|t.groups|].leak == leak
  {
    if leak.frames.Some? && FirstMatch(sups, leak.className, leak.frames.value, 0).None? {
      FirstMatchIsFirst(Patterns(t.groups), leak.className, leak.frames.value, 0);
    }
  }

  /** The first leak of every group is one of the leaks seen. */
  lemma {:induction false} TalliedLeaksGroups(sups: seq<Suppression>, leaks: seq<Leak>)
    ensures forall j :: 0 <= j < |Tallied(sups, leaks).groups| ==> Tallied(sups, leaks).groups[j].leak in leaks
    decreases |leaks|
  {
    if leaks != [] {
      var init := leaks[..|leaks| - 1];
      var leak := leaks[|leaks| - 1];
      TalliedLeaksGroups(sups, init);
      var t := Tallied(sups, init);
      StepGroupLeaks(sups, t, leak);
      assert forall x :: x in init ==> x in leaks;
    }
  }

  /**
   * A leak with no frames that no loaded suppression matches starts a new
   * group exactly when no group's suppression has only `...` frames and a
   * class pattern matching its class name.
   */
  lemma EmptyFramesGroup(sups: seq<Suppression>, t: Tally, cls: string)
    requires FirstMatch(sups, cls, [], 0).None?
    ensures |Step(sups, t, Leak(cls, Some([]))).groups| == |t.groups| + 1 <==>
      forall j :: 0 <= j < |t.groups| ==> !AllEllipses(t.groups[j].suppression, cls)
  {
    var ps := Patterns(t.groups);
    FirstMatchIsFirst(ps, cls, [], 0);
    forall j | 0 <= j < |t.groups| ensures ps[j].Match(cls, []) <==> AllEllipses(t.groups[j].suppression, cls) {
      MatchWithoutFrames(ps[j], cls);
    }
  }

  /**
   * A leak with frames is reported once however often it repeats: after it
   * has been seen, seeing it again starts no new group.
   */
  lemma RepeatedLeakJoinsAGroup(sups: seq<Suppression>, t: Tally, leak: Leak)
    requires leak.frames.Some? && leak.frames.value != []
    ensures |Step(sups, Step(sups, t, leak), leak).groups| == |Step(sups, t, leak).groups|
  {
    var frames := leak.frames.value;
    var t1 := Step(sups, t, leak);
    if FirstMatch(sups, leak.className, frames, 0).None? {
      var ps := Patterns(t1.groups);
      FirstMatchIsFirst(ps, leak.className, frames, 0);
      FirstMatchIsFirst(Patterns(t.groups), leak.className, frames, 0);
      if FirstMatch(Patterns(t.groups), leak.className, frames, 0).None? {
        SyntheticMatchesItsLeak(leak.className, frames);
        assert ps[|t.groups|].Match(leak.className, frames);
      } else {
        var j := FirstMatch(Patterns(t.groups), leak.className, frames, 0).value;
        assert ps[j].Match(leak.className, frames);
      }
    }
  }

  /** A non-empty suppression whose class pattern matches `cls` and whose frames are all `...`. */
  predicate AllEllipses(s: Suppression, cls: string) {
    s.stack != [] && GlobMatch(s.className, cls) && forall k :: 0 <= k < |s.stack| ==> s.stack[k] == EllipsisPattern
  }
}
