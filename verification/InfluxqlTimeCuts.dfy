/** How one end of a time range moves over the comparisons met on the walk, and exactly when it stops one
    nanosecond short. Both ends are treated as lower ends; for the upper end times are negated. */
module InfluxqlTimeCuts {
  import opened Common

  /** What a comparison does to an end that is below `at`: a strict one puts it behind `at`, a weak one at
      `at`. A loose one also puts it at `at`, although only later times are meant. */
  datatype Kind = Weak | Strict | Loose

  datatype Cut = Cut(at: int, kind: Kind)

  /** Where the end goes, and where it belongs. */
  function Placed(c: Cut): int { if c.kind.Strict? then c.at + 1 else c.at }
  function Meant(c: Cut): int { if c.kind.Weak? then c.at else c.at + 1 }

  /** The end after all the comparisons, in the order in which they are met. */
  function Running(cuts: seq<Cut>): Option<int> {
    if cuts == [] then None
    else
      var n := |cuts| - 1;
      var before := Running(cuts[..n]);
      if before.None? || cuts[n].at > before.value then Some(Placed(cuts[n])) else before
  }

  function Later(a: Option<int>, b: Option<int>): Option<int> {
    if a.None? || (b.Some? && b.value > a.value) then b else a
  }

  /** The end that all the comparisons together mean, in whatever order. */
  function Tightest(cuts: seq<Cut>): Option<int> {
    if cuts == [] then None else Later(Tightest(cuts[..|cuts| - 1]), Some(Meant(cuts[|cuts| - 1])))
  }

  /** Comparison `i` leaves the end short of what it means: a strict one that meets the end at its own
      time, or a loose one that the end has not passed. */
  predicate Slips(cuts: seq<Cut>, i: nat)
    requires i < |cuts|
  {
    var before := Running(cuts[..i]);
    match cuts[i].kind
    case Weak => false
    case Strict => before == Some(cuts[i].at)
    case Loose => before.None? || before.value <= cuts[i].at
  }

  /** Nothing after comparison `i` moves the end further. */
  predicate IsLast(cuts: seq<Cut>, i: nat)
    requires i < |cuts|
  {
    forall j :: i < j < |cuts| ==> cuts[j].at <= cuts[i].at
  }

  predicate IsSlack(cuts: seq<Cut>) {
    exists i: nat :: i < |cuts| && Slips(cuts, i) && IsLast(cuts, i)
  }

  lemma RunningNext(cuts: seq<Cut>, c: Cut)
    ensures Running(cuts + [c]) ==
            if cuts == [] || c.at > Running(cuts).value then Some(Placed(c)) else Running(cuts)
  {
    assert (cuts + [c])[..|cuts|] == cuts;
  }

  lemma RunningOne(c: Cut)
    ensures Running([c]) == Some(Placed(c))
  {
    assert [c][..0] == [];
  }

  lemma TightestOne(c: Cut)
    ensures Tightest([c]) == Some(Meant(c))
  {
    assert [c][..0] == [];
  }

  lemma {:induction false} TightestAppend(a: seq<Cut>, b: seq<Cut>)
    ensures Tightest(a + b) == Later(Tightest(a), Tightest(b))
    decreases |b|
  {
    if b == [] {
      assert a + b == a;
    } else {
      var n := |b| - 1;
      assert (a + b)[..|a| + n] == a + b[..n];
      TightestAppend(a, b[..n]);
    }
  }

  /** What is known of the comparisons before the last one carries over to all of them. */
  lemma SlackBefore(cuts: seq<Cut>, i: nat)
    requires i < |cuts| - 1
    ensures Slips(cuts, i) <==> Slips(cuts[..|cuts| - 1], i)
    ensures IsLast(cuts, i) <==> IsLast(cuts[..|cuts| - 1], i) && cuts[|cuts| - 1].at <= cuts[i].at
  {
    assert cuts[..|cuts| - 1][..i] == cuts[..i];
  }

  /** The end stays where it slipped. */
  lemma {:induction false} StaysSlack(cuts: seq<Cut>, i: nat)
    requires i < |cuts| && Slips(cuts, i) && IsLast(cuts, i)
    ensures Running(cuts) == Some(cuts[i].at)
    decreases |cuts|
  {
    if i < |cuts| - 1 {
      SlackBefore(cuts, i);
      StaysSlack(cuts[..|cuts| - 1], i);
    }
  }

  /** Whether the end is slack after one more comparison. */
  lemma SlackNext(cuts: seq<Cut>)
    requires cuts != []
    ensures var n := |cuts| - 1;
            IsSlack(cuts) <==>
            Slips(cuts, n) || (IsSlack(cuts[..n]) && cuts[n].at <= Running(cuts[..n]).value)
  {
    var n := |cuts| - 1;
    var init := cuts[..n];
    if Slips(cuts, n) {
      assert IsLast(cuts, n);
    }
    if IsSlack(init) {
      var i: nat :| i < |init| && Slips(init, i) && IsLast(init, i);
      StaysSlack(init, i);
      SlackBefore(cuts, i);
    }
    if IsSlack(cuts) && !Slips(cuts, n) {
      var i: nat :| i < |cuts| && Slips(cuts, i) && IsLast(cuts, i);
      SlackBefore(cuts, i);
      StaysSlack(init, i);
    }
  }

  /** The end is where it belongs, or one short of it, and the latter exactly if a comparison slipped and
      none after it moved the end further. */
  lemma {:induction false} RunningExactly(cuts: seq<Cut>)
    requires cuts != []
    ensures Running(cuts).Some? && Tightest(cuts).Some?
    ensures Tightest(cuts).value == Running(cuts).value + if IsSlack(cuts) then 1 else 0
    decreases |cuts|
  {
    SlackNext(cuts);
    if |cuts| > 1 {
      RunningExactly(cuts[..|cuts| - 1]);
    } else {
      assert cuts[..0] == [];
    }
  }

  /** The end is where one of the comparisons put it. */
  lemma {:induction false} RunningIsPlaced(cuts: seq<Cut>)
    requires cuts != []
    ensures exists i :: 0 <= i < |cuts| && Running(cuts) == Some(Placed(cuts[i]))
    decreases |cuts|
  {
    var n := |cuts| - 1;
    if n > 0 && Running(cuts) == Running(cuts[..n]) {
      RunningIsPlaced(cuts[..n]);
      var i :| 0 <= i < n && Running(cuts[..n]) == Some(Placed(cuts[..n][i]));
      assert cuts[i] == cuts[..n][i];
    } else {
      assert Running(cuts) == Some(Placed(cuts[n]));
    }
  }

  /** No loose comparison, and times at least two nanoseconds apart. */
  predicate IsSpaced(cuts: seq<Cut>) {
    && (forall i :: 0 <= i < |cuts| ==> !cuts[i].kind.Loose?)
    && (forall i, j :: 0 <= i < j < |cuts| ==> cuts[i].at + 2 <= cuts[j].at || cuts[j].at + 2 <= cuts[i].at)
  }

  /** Then the end is where it belongs, in whatever order the comparisons stand. */
  lemma SpacedIsTight(cuts: seq<Cut>)
    requires IsSpaced(cuts)
    ensures !IsSlack(cuts)
  {
    forall i: nat | i < |cuts|
      ensures !Slips(cuts, i)
    {
      if i > 0 {
        RunningIsPlaced(cuts[..i]);
      } else {
        assert cuts[..0] == [];
      }
    }
  }
}
