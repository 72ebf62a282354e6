/** Runs of the machine cut into pieces, and what every reachable state satisfies. */
module Runs {
  import opened Device
  import WifiLink

  /** The state in which event `n` of the run finds the device. */
  function Before(d: Device, evs: seq<Event>, n: nat): Device
    requires n <= |evs|
  {
    Final(d, evs[..n])
  }

  lemma {:induction false} FinalConcat(d: Device, a: seq<Event>, b: seq<Event>)
    ensures Final(d, a + b) == Final(Final(d, a), b)
    decreases |a|
  {
    if a == [] {
      assert a + b == b;
    } else {
      assert (a + b)[1..] == a[1..] + b;
      FinalConcat(Step(d, a[0]).0, a[1..], b);
    }
  }

  lemma {:induction false} FinalSnoc(d: Device, evs: seq<Event>, e: Event)
    ensures Final(d, evs + [e]) == Step(Final(d, evs), e).0
  {
    FinalConcat(d, evs, [e]);
    assert [e][1..] == [];
  }

  lemma {:induction false} BeforeNext(d: Device, evs: seq<Event>, n: nat)
    requires n < |evs|
    ensures Before(d, evs, n + 1) == Step(Before(d, evs, n), evs[n]).0
  {
    assert evs[..n + 1] == evs[..n] + [evs[n]];
    FinalSnoc(d, evs[..n], evs[n]);
  }

  lemma {:induction false} BeforeSegment(d: Device, evs: seq<Event>, i: nat, j: nat)
    requires i <= j <= |evs|
    ensures Before(d, evs, j) == Final(Before(d, evs, i), evs[i..j])
  {
    assert evs[..j] == evs[..i] + evs[i..j];
    FinalConcat(d, evs[..i], evs[i..j]);
  }

  /** The device is up before, between and after all the events. */
  predicate StaysUp(d: Device, evs: seq<Event>)
    decreases |evs|
  {
    d.up && (evs == [] || StaysUp(Step(d, evs[0]).0, evs[1..]))
  }

  /** Up from event `i` to event `j` of a run. */
  lemma {:induction false} UpSegment(d: Device, evs: seq<Event>, i: nat, j: nat)
    requires i <= j <= |evs|
    requires forall k :: i <= k <= j ==> Before(d, evs, k).up
    ensures StaysUp(Before(d, evs, i), evs[i..j])
    decreases j - i
  {
    if i < j {
      BeforeNext(d, evs, i);
      UpSegment(d, evs, i + 1, j);
      assert evs[i..j][1..] == evs[i + 1..j];
    }
  }

  /** The queue is bounded, and a device that is down has nothing in RAM. */
  predicate Sound(d: Device) {
    |d.queue| <= QUEUE_SIZE && (!d.up ==> d.queue == [] && d.link == WifiLink.NO_LINK)
  }

  lemma {:induction false} StepKeepsSound(d: Device, e: Event)
    requires Sound(d)
    ensures Sound(Step(d, e).0)
  {
  }

  /** In every run, whatever fails and however often the device restarts, at most ten
      interrupts wait, and nothing in RAM outlives a restart. */
  lemma {:induction false} AlwaysSound(d: Device, evs: seq<Event>)
    requires Sound(d)
    ensures Sound(Final(d, evs))
    decreases |evs|
  {
    if evs != [] {
      StepKeepsSound(d, evs[0]);
      AlwaysSound(Step(d, evs[0]).0, evs[1..]);
    }
  }

  /** Event `i` brings the device up, and up to event `j` it stays up. */
  ghost predicate OneBoot(d: Device, evs: seq<Event>, i: nat, j: nat) {
    && i < j <= |evs| && !Before(d, evs, i).up
    && forall k :: i < k <= j ==> Before(d, evs, k).up
  }

  /** Every boot of every run starts with an empty queue, without server and client. */
  lemma {:induction false} BootIsFresh(d: Device, evs: seq<Event>, i: nat, j: nat)
    requires Sound(d) && OneBoot(d, evs, i, j)
    ensures evs[i].Boot? && StaysUp(Before(d, evs, i + 1), evs[i + 1..j])
    ensures Before(d, evs, i + 1).queue == [] && Before(d, evs, i + 1).link == WifiLink.NO_LINK
    ensures Before(d, evs, j) == Final(Before(d, evs, i + 1), evs[i + 1..j])
  {
    AlwaysSound(d, evs[..i]);
    BeforeNext(d, evs, i);
    UpSegment(d, evs, i + 1, j);
    BeforeSegment(d, evs, i + 1, j);
  }
}
