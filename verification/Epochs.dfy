/** How time divides the recorded packets into epochs, one for each log file. */
module Epochs {
  import opened Words
  import opened Flows
  import opened FlowMon

  /** The packets recorded so far, by epoch, and how many the running epoch has missed. */
  datatype History = History(closed: seq<seq<Pkt>>, open: seq<Pkt>, missed: nat)

  const NO_HISTORY: History := History([], [], 0)

  /** A packet that reaches the tables at second sec ends the running epoch when that is due. */
  function Turn(h: History, sec: u32): History {
    if h.open != [] && Expired(h.open[0].sec, sec) then History(h.closed + [h.open], [], 0) else h
  }

  /** The packet joins the running epoch if it is recorded, and is missed by it if not. */
  function Enter(h: History, p: Pkt, recorded: bool): History {
    if recorded then h.(open := h.open + [p]) else h.(missed := h.missed + 1)
  }

  function Flatten<T>(epochs: seq<seq<T>>): seq<T> {
    if epochs == [] then [] else Flatten(epochs[..|epochs| - 1]) + epochs[|epochs| - 1]
  }

  /** All epochs, the running one included once it has packets. */
  function AllEpochs(h: History): seq<seq<Pkt>> {
    if h.open == [] then h.closed else h.closed + [h.open]
  }

  /** Packets as they reach the tables, each with the decision whether it is recorded. */
  datatype Arrival = Arrival(p: Pkt, recorded: bool)

  /** The history of some arrivals. */
  function HistoryOf(arrivals: seq<Arrival>): History {
    if arrivals == [] then NO_HISTORY
    else
      var n := |arrivals| - 1;
      Enter(Turn(HistoryOf(arrivals[..n]), arrivals[n].p.sec), arrivals[n].p, arrivals[n].recorded)
  }

  function RecordedPackets(arrivals: seq<Arrival>): seq<Pkt> {
    if arrivals == [] then []
    else
      var n := |arrivals| - 1;
      RecordedPackets(arrivals[..n]) + (if arrivals[n].recorded then [arrivals[n].p] else [])
  }

  lemma FlattenSnoc<T>(epochs: seq<seq<T>>, e: seq<T>)
    ensures Flatten(epochs + [e]) == Flatten(epochs) + e
  {
    assert (epochs + [e])[..|epochs|] == epochs;
  }

  /** Every recorded packet is in exactly one epoch, and the epochs keep the order of arrival. */
  lemma {:induction false} EpochsPartition(arrivals: seq<Arrival>)
    ensures Flatten(AllEpochs(HistoryOf(arrivals))) == RecordedPackets(arrivals)
    decreases |arrivals|
  {
    if arrivals != [] {
      var n := |arrivals| - 1;
      var h := HistoryOf(arrivals[..n]);
      var t := Turn(h, arrivals[n].p.sec);
      EpochsPartition(arrivals[..n]);
      FlattenAll(h);
      TurnKeepsAll(h, arrivals[n].p.sec);
      EnterAdds(t, arrivals[n].p, arrivals[n].recorded);
    }
  }

  lemma EnterAdds(t: History, p: Pkt, recorded: bool)
    ensures Flatten(AllEpochs(Enter(t, p, recorded)))
         == (Flatten(t.closed) + t.open) + (if recorded then [p] else [])
  {
    var before := Flatten(t.closed);
    FlattenAll(Enter(t, p, recorded));
    if recorded {
      assert before + (t.open + [p]) == (before + t.open) + [p];
    } else {
      assert (before + t.open) + [] == before + t.open;
    }
  }

  lemma FlattenAll(h: History)
    ensures Flatten(AllEpochs(h)) == Flatten(h.closed) + h.open
  {
    FlattenSnoc(h.closed, h.open);
    assert Flatten(h.closed) + [] == Flatten(h.closed);
  }

  lemma TurnKeepsAll(h: History, sec: u32)
    ensures Flatten(Turn(h, sec).closed) + Turn(h, sec).open == Flatten(h.closed) + h.open
  {
    FlattenSnoc(h.closed, h.open);
    assert (Flatten(h.closed) + h.open) + [] == Flatten(h.closed) + h.open;
  }

  /**
   * The running epoch consists of what was recorded since arrival k, the others since then are the
   * packets it missed, and what was recorded before makes up the finished epochs.
   */
  ghost predicate RunsSince(arrivals: seq<Arrival>, k: nat) {
    && k <= |arrivals|
    && var h := HistoryOf(arrivals);
       && h.closed == AllEpochs(HistoryOf(arrivals[..k]))
       && h.open == RecordedPackets(arrivals[k..])
       && h.missed == |arrivals[k..]| - |h.open|
  }

  lemma {:induction false} RunningEpoch(arrivals: seq<Arrival>) returns (k: nat)
    ensures RunsSince(arrivals, k)
    decreases |arrivals|
  {
    if arrivals == [] {
      k := 0;
    } else {
      var n := |arrivals| - 1;
      var h := HistoryOf(arrivals[..n]);
      if h.open != [] && Expired(h.open[0].sec, arrivals[n].p.sec) {
        k := n;
        assert arrivals[n..] == [] + [arrivals[n]];
        RecordedSnoc([], arrivals[n]);
      } else {
        k := RunningEpoch(arrivals[..n]);
        StillRuns(arrivals, k);
      }
    }
  }

  lemma StillRuns(arrivals: seq<Arrival>, k: nat)
    requires arrivals != [] && RunsSince(arrivals[..|arrivals| - 1], k)
    requires var n := |arrivals| - 1;
      Turn(HistoryOf(arrivals[..n]), arrivals[n].p.sec) == HistoryOf(arrivals[..n])
    ensures RunsSince(arrivals, k)
  {
    var n := |arrivals| - 1;
    assert arrivals[..n][..k] == arrivals[..k];
    assert arrivals[k..] == arrivals[..n][k..] + [arrivals[n]];
    RecordedSnoc(arrivals[..n][k..], arrivals[n]);
  }

  lemma RecordedSnoc(arrivals: seq<Arrival>, a: Arrival)
    ensures RecordedPackets(arrivals + [a]) == RecordedPackets(arrivals) + (if a.recorded then [a.p] else [])
  {
    assert (arrivals + [a])[..|arrivals|] == arrivals;
  }

  // ---- What runs parallel to the packets ----

  lemma {:induction false} FlattenUpTo(epochs: seq<seq<Pkt>>, k: nat)
    requires k < |epochs|
    ensures |Flatten(epochs[..k])| + |epochs[k]| <= |Flatten(epochs)|
    ensures Flatten(epochs)[|Flatten(epochs[..k])|..|Flatten(epochs[..k])| + |epochs[k]|] == epochs[k]
    decreases |epochs|
  {
    var n := |epochs| - 1;
    if k < n {
      FlattenUpTo(epochs[..n], k);
      assert epochs[..n][..k] == epochs[..k];
    }
  }

  /** The part of a sequence parallel to the packets that belongs to epoch k. */
  function Share<T>(xs: seq<T>, epochs: seq<seq<Pkt>>, k: nat): (r: seq<T>)
    requires k < |epochs| && |xs| == |Flatten(epochs)|
    ensures |r| == |epochs[k]|
  {
    FlattenUpTo(epochs, k);
    xs[|Flatten(epochs[..k])|..|Flatten(epochs[..k])| + |epochs[k]|]
  }

  function Shares<T>(xs: seq<T>, epochs: seq<seq<Pkt>>): (r: seq<seq<T>>)
    requires |xs| == |Flatten(epochs)|
    ensures |r| == |epochs|
  {
    seq(|epochs|, k requires 0 <= k < |epochs| => Share(xs, epochs, k))
  }

  /** The shares put together are the whole sequence again, and no element is in two of them. */
  lemma {:induction false} SharesPartition<T>(xs: seq<T>, epochs: seq<seq<Pkt>>)
    requires |xs| == |Flatten(epochs)|
    ensures Flatten(Shares(xs, epochs)) == xs
    decreases |epochs|
  {
    if epochs != [] {
      var n := |epochs| - 1;
      var m := |Flatten(epochs[..n])|;
      SharesPartition(xs[..m], epochs[..n]);
      SharesOfPrefix(xs, epochs);
      assert xs == xs[..m] + Share(xs, epochs, n);
    }
  }

  lemma SharesOfPrefix<T>(xs: seq<T>, epochs: seq<seq<Pkt>>)
    requires epochs != [] && |xs| == |Flatten(epochs)|
    ensures var n := |epochs| - 1;
      && |Flatten(epochs[..n])| <= |xs|
      && Shares(xs, epochs)[..n] == Shares(xs[..|Flatten(epochs[..n])|], epochs[..n])
  {
    var n := |epochs| - 1;
    var m := |Flatten(epochs[..n])|;
    var a, b := Shares(xs, epochs)[..n], Shares(xs[..m], epochs[..n]);
    forall k | 0 <= k < n
      ensures a[k] == b[k]
    {
      FlattenUpTo(epochs[..n], k);
      assert epochs[..n][..k] == epochs[..k];
    }
  }

  // ---- Time bounds ----

  /** No packet is ten seconds after the first, and none but the first second is a boundary. */
  ghost predicate Bounded(epoch: seq<Pkt>) {
    forall i :: 0 <= i < |epoch| ==>
      && epoch[i].sec - epoch[0].sec < 10
      && (epoch[i].sec % 10 == 0 ==> epoch[i].sec == epoch[0].sec)
  }

  lemma {:induction false} EpochsBounded(arrivals: seq<Arrival>)
    ensures forall k :: 0 <= k < |AllEpochs(HistoryOf(arrivals))| ==> Bounded(AllEpochs(HistoryOf(arrivals))[k])
    ensures Bounded(HistoryOf(arrivals).open)
    decreases |arrivals|
  {
    if arrivals != [] {
      var n := |arrivals| - 1;
      EpochsBounded(arrivals[..n]);
      var h := HistoryOf(arrivals[..n]);
      var t := Turn(h, arrivals[n].p.sec);
      assert forall k :: 0 <= k < |t.closed| ==> t.closed[k] == AllEpochs(h)[k];
    }
  }

  ghost predicate InOrder(arrivals: seq<Arrival>) {
    forall i, j :: 0 <= i <= j < |arrivals| ==> arrivals[i].p.sec <= arrivals[j].p.sec
  }

  /** The epoch lies wholly before second b, or wholly at b or later. */
  ghost predicate OnOneSide(epoch: seq<Pkt>, b: int) {
    || (forall i :: 0 <= i < |epoch| ==> epoch[i].sec < b)
    || (forall i :: 0 <= i < |epoch| ==> epoch[i].sec >= b)
  }

  ghost predicate AllUpTo(epoch: seq<Pkt>, sec: int) {
    forall i :: 0 <= i < |epoch| ==> epoch[i].sec <= sec
  }

  ghost predicate Rising(epoch: seq<Pkt>) {
    forall i :: 0 <= i < |epoch| ==> epoch[0].sec <= epoch[i].sec
  }

  /** With nondecreasing times no epoch looks ahead, and each starts with its earliest packet. */
  lemma {:induction false} EpochsRise(arrivals: seq<Arrival>, sec: int)
    requires InOrder(arrivals)
    requires forall i :: 0 <= i < |arrivals| ==> arrivals[i].p.sec <= sec
    ensures forall k :: 0 <= k < |HistoryOf(arrivals).closed|
              ==> AllUpTo(HistoryOf(arrivals).closed[k], sec) && Rising(HistoryOf(arrivals).closed[k])
    ensures AllUpTo(HistoryOf(arrivals).open, sec) && Rising(HistoryOf(arrivals).open)
    decreases |arrivals|
  {
    if arrivals != [] {
      var n := |arrivals| - 1;
      EpochsRise(arrivals[..n], arrivals[n].p.sec);
    }
  }

  /** An epoch with nothing after b and no late boundary packet is on one side of the boundary b. */
  lemma BoundedIsOnOneSide(epoch: seq<Pkt>, b: int)
    requires Bounded(epoch) && Rising(epoch) && AllUpTo(epoch, b) && b % 10 == 0
    ensures OnOneSide(epoch, b)
    ensures epoch != [] && !(epoch[0].sec == b) ==> forall i :: 0 <= i < |epoch| ==> epoch[i].sec < b
  {
  }

  /**
   * With nondecreasing times, once any packet - recorded or not - has reached the tables at a
   * ten-second boundary b, no epoch mixes packets from before b with packets from b or later.
   */
  lemma {:induction false} BoundarySeparates(arrivals: seq<Arrival>, k: nat)
    requires InOrder(arrivals) && k < |arrivals| && arrivals[k].p.sec % 10 == 0
    ensures var b, h := arrivals[k].p.sec, HistoryOf(arrivals);
      && (forall j :: 0 <= j < |h.closed| ==> OnOneSide(h.closed[j], b))
      && (forall i :: 0 <= i < |h.open| ==> h.open[i].sec >= b)
    decreases |arrivals|
  {
    var n := |arrivals| - 1;
    var b := arrivals[k].p.sec;
    var h := HistoryOf(arrivals[..n]);
    if k < n {
      assert arrivals[..n][k] == arrivals[k];
      BoundarySeparates(arrivals[..n], k);
      assert HistoryOf(arrivals[..n]) == h;
      assert forall i :: 0 <= i < |h.open| ==> h.open[i].sec >= b;
      assert OnOneSide(h.open, b);
    } else {
      EpochsRise(arrivals[..n], b);
      EpochsBounded(arrivals[..n]);
      BoundaryEnds(h, b);
    }
  }

  /** A packet at a boundary finds every epoch on one side of it, the running one before it or due. */
  lemma BoundaryEnds(h: History, b: u32)
    requires b % 10 == 0 && Bounded(h.open) && Rising(h.open) && AllUpTo(h.open, b)
    requires forall j :: 0 <= j < |AllEpochs(h)| ==> Bounded(AllEpochs(h)[j])
    requires forall j :: 0 <= j < |h.closed| ==> AllUpTo(h.closed[j], b) && Rising(h.closed[j])
    ensures forall j :: 0 <= j < |Turn(h, b).closed| ==> OnOneSide(Turn(h, b).closed[j], b)
    ensures forall i :: 0 <= i < |Turn(h, b).open| ==> Turn(h, b).open[i].sec >= b
  {
    forall j | 0 <= j < |h.closed|
      ensures OnOneSide(h.closed[j], b)
    {
      assert h.closed[j] == AllEpochs(h)[j];
      BoundedIsOnOneSide(h.closed[j], b);
    }
    BoundedIsOnOneSide(h.open, b);
  }

  /** The same for the running epoch too. */
  lemma BoundarySeparatesAll(arrivals: seq<Arrival>, k: nat, j: nat)
    requires InOrder(arrivals) && k < |arrivals| && arrivals[k].p.sec % 10 == 0
    requires j < |AllEpochs(HistoryOf(arrivals))|
    ensures OnOneSide(AllEpochs(HistoryOf(arrivals))[j], arrivals[k].p.sec)
  {
    BoundarySeparates(arrivals, k);
    var h := HistoryOf(arrivals);
    if j < |h.closed| {
      assert AllEpochs(h)[j] == h.closed[j];
    } else {
      assert AllEpochs(h)[j] == h.open;
    }
  }

  /** Every epoch starts in a later one of the intervals between ten-second boundaries. */
  ghost predicate FirstsIncrease(epochs: seq<seq<Pkt>>) {
    && (forall k :: 0 <= k < |epochs| ==> epochs[k] != [])
    && (forall k :: 0 < k < |epochs| ==> epochs[k - 1][0].sec / 10 < epochs[k][0].sec / 10)
  }

  /** The last finished epoch started in an interval before that of second sec. */
  ghost predicate ClosedBefore(closed: seq<seq<Pkt>>, sec: int) {
    closed != [] ==> closed[|closed| - 1] != [] && closed[|closed| - 1][0].sec / 10 < sec / 10
  }

  /** So the first seconds of epochs j and k are more than 10 (k - j - 1) apart. */
  lemma {:induction false} FirstsApart(epochs: seq<seq<Pkt>>, j: nat, k: nat)
    requires FirstsIncrease(epochs) && j < k < |epochs|
    ensures epochs[k][0].sec / 10 >= epochs[j][0].sec / 10 + (k - j)
    ensures epochs[k][0].sec > epochs[j][0].sec + 10 * (k - j - 1)
    decreases k
  {
    if j < k - 1 {
      FirstsApart(epochs, j, k - 1);
    }
  }

  /** With nondecreasing times successive epochs start in later and later intervals. */
  lemma {:induction false} EpochsAdvance(arrivals: seq<Arrival>)
    requires InOrder(arrivals)
    ensures FirstsIncrease(AllEpochs(HistoryOf(arrivals)))
    ensures arrivals != [] ==> ClosedBefore(HistoryOf(arrivals).closed, arrivals[|arrivals| - 1].p.sec)
    decreases |arrivals|
  {
    if arrivals != [] {
      var n := |arrivals| - 1;
      var h, sec := HistoryOf(arrivals[..n]), arrivals[n].p.sec;
      EpochsAdvance(arrivals[..n]);
      EpochsRise(arrivals[..n], sec);
      if n > 0 {
        assert arrivals[..n][n - 1] == arrivals[n - 1];
      }
      TurnAdvances(h, sec);
      EnterAdvances(Turn(h, sec), arrivals[n].p, arrivals[n].recorded);
    }
  }

  lemma TurnAdvances(h: History, sec: u32)
    requires FirstsIncrease(AllEpochs(h)) && ClosedBefore(h.closed, sec) && AllUpTo(h.open, sec)
    ensures var t := Turn(h, sec);
      && FirstsIncrease(AllEpochs(t)) && ClosedBefore(t.closed, sec)
      && (t.open != [] ==> ClosedBefore(t.closed, t.open[0].sec))
  {
    var all := AllEpochs(h);
    if h.open != [] && h.closed != [] {
      assert all[|h.closed| - 1] == h.closed[|h.closed| - 1];
      assert all[|h.closed|] == h.open;
    }
  }

  lemma EnterAdvances(t: History, p: Pkt, recorded: bool)
    requires FirstsIncrease(AllEpochs(t)) && ClosedBefore(t.closed, p.sec)
    requires t.open != [] ==> ClosedBefore(t.closed, t.open[0].sec)
    ensures FirstsIncrease(AllEpochs(Enter(t, p, recorded)))
  {
    var all, all' := AllEpochs(t), AllEpochs(Enter(t, p, recorded));
    assert forall k :: 0 <= k < |t.closed| ==> all[k] == t.closed[k] == all'[k];
  }
}
