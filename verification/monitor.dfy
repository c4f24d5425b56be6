/** `monitor_storage`: take a first snapshot, then run pass after pass.

    The endless `while True` with its ten-second sleeps becomes a finite
    sequence of polls, each saying what the listing returned and where a
    download-and-print raised. The first listing is taken before the loop and
    outside its exception handler, so if it raises the function ends.
 */
module Monitor {
  import opened Snapshots
  import opened PollCycle

  /** The reports of a run of passes and the snapshot it leaves. */
  datatype Progress = Progress(events: seq<Name>, snapshot: Dict)

  /** Crashed: the first listing raised. Running: the loop ran every given poll. */
  datatype Run = Crashed | Running(progress: Progress)

  /** The loop, one pass per poll, each pass starting from the snapshot the previous one left. */
  function Loop(snapshot: Dict, polls: seq<Poll>): (r: Progress)
    ensures Valid(snapshot) ==> Valid(r.snapshot)
    ensures (forall i :: 0 <= i < |polls| ==> polls[i].listing.ListError?) ==> r == Progress([], snapshot)
    decreases |polls|
  {
    if |polls| == 0 then Progress([], snapshot)
    else
      var s := Cycle(snapshot, polls[0]);
      var rest := Loop(s.next, polls[1..]);
      Progress(s.emitted + rest.events, rest.snapshot)
  }

  /** The whole function: the first listing becomes the snapshot, then the loop runs. */
  function MonitorStorage(initial: Listing, polls: seq<Poll>): (r: Run)
    ensures r.Crashed? <==> initial.ListError?
    ensures r.Running? ==> Valid(r.progress.snapshot)
    ensures r.Running? && polls == [] ==> r == Running(Progress([], ListFiles(initial.blobs)))
  {
    match initial
    case ListError => Crashed
    case Listed(blobs) =>
      Running(Loop(ListFiles(blobs), polls))
  }

  /** A pass whose listing raised changes nothing: the handler sleeps and the loop retries. */
  lemma ListErrorIsNoOp(snapshot: Dict, p: Poll, polls: seq<Poll>)
    requires p.listing.ListError?
    ensures Loop(snapshot, [p] + polls) == Loop(snapshot, polls)
  {
    assert ([p] + polls)[1..] == polls;
  }

  /** A name the snapshot holds, and that every successful listing still shows, is never
      reported. */
  lemma {:induction false} ListedNameNeverReported(snapshot: Dict, polls: seq<Poll>, n: Name)
    requires n in snapshot.entries
    requires forall i :: 0 <= i < |polls| && polls[i].listing.Listed? ==> n in Names(polls[i].listing.blobs)
    ensures n !in Loop(snapshot, polls).events
    decreases |polls|
  {
    if |polls| > 0 {
      var s := Cycle(snapshot, polls[0]);
      if polls[0].listing.Listed? {
        ListFilesKeys(polls[0].listing.blobs);
      }
      assert n in s.next.entries;
      forall i | 0 <= i < |polls[1..]| && polls[1..][i].listing.Listed?
        ensures n in Names(polls[1..][i].listing.blobs)
      {
        assert polls[1..][i] == polls[i + 1];
      }
      ListedNameNeverReported(s.next, polls[1..], n);
    }
  }

  /** Objects already in the bucket when monitoring starts are never printed while they stay
      there: the first listing is the starting snapshot, so a restart skips the backlog. */
  lemma StartupNamesNeverReported(initial: Listing, polls: seq<Poll>, n: Name)
    requires initial.Listed? && n in Names(initial.blobs)
    requires forall i :: 0 <= i < |polls| && polls[i].listing.Listed? ==> n in Names(polls[i].listing.blobs)
    ensures MonitorStorage(initial, polls).Running?
    ensures n !in MonitorStorage(initial, polls).progress.events
  {
    ListFilesKeys(initial.blobs);
    ListedNameNeverReported(ListFiles(initial.blobs), polls, n);
  }

  /** While the bucket keeps the snapshot's names, however its timestamps change, nothing is
      reported and the snapshot keeps its names. */
  lemma {:induction false} SteadyBucketReportsNothing(snapshot: Dict, polls: seq<Poll>)
    requires forall i :: 0 <= i < |polls| && polls[i].listing.Listed? ==>
               ListFiles(polls[i].listing.blobs).entries.Keys == snapshot.entries.Keys
    ensures Loop(snapshot, polls).events == []
    ensures Loop(snapshot, polls).snapshot.entries.Keys == snapshot.entries.Keys
    decreases |polls|
  {
    if |polls| > 0 {
      var p := polls[0];
      var s := Cycle(snapshot, p);
      if p.listing.Listed? {
        QuietWhenKeysUnchanged(snapshot, p.listing.blobs, p.fault);
      }
      assert s.emitted == [] && s.next.entries.Keys == snapshot.entries.Keys;
      forall i | 0 <= i < |polls[1..]| && polls[1..][i].listing.Listed?
        ensures ListFiles(polls[1..][i].listing.blobs).entries.Keys == s.next.entries.Keys
      {
        assert polls[1..][i] == polls[i + 1];
      }
      SteadyBucketReportsNothing(s.next, polls[1..]);
    }
  }

  /** A download that raises on the k-th new object makes the next pass over the same bucket
      report the first k + 1 new objects again: those before the failure are printed twice. */
  lemma FailedPassIsRepeated(snapshot: Dict, blobs: seq<Blob>, k: nat)
    requires k < |Cycle(snapshot, Poll(Listed(blobs), NoFault)).emitted|
    ensures var full := Cycle(snapshot, Poll(Listed(blobs), NoFault));
      Loop(snapshot, [Poll(Listed(blobs), RaisesAt(k)), Poll(Listed(blobs), NoFault)])
        == Progress(full.emitted[..k + 1] + full.emitted, ListFiles(blobs))
  {
    var failed := Poll(Listed(blobs), RaisesAt(k));
    var retry := Poll(Listed(blobs), NoFault);
    var full := Cycle(snapshot, retry);
    assert Cycle(snapshot, failed).outcome == Aborted;
    AbortedCycleIsRepeated(snapshot, blobs, k);
    LoopTwo(snapshot, failed, retry);
  }

  lemma LoopTwo(snapshot: Dict, p: Poll, q: Poll)
    ensures var s1 := Cycle(snapshot, p);
            var s2 := Cycle(s1.next, q);
      Loop(snapshot, [p, q]) == Progress(s1.emitted + s2.emitted, s2.next)
  {
    assert [p, q][1..] == [q];
    assert [q][1..] == [];
  }

  /** An object whose download always raises blocks every object after it: each pass reports
      that one object and aborts, and the snapshot never moves. */
  lemma {:induction false} FailingObjectBlocksTheRest(snapshot: Dict, blobs: seq<Blob>, polls: seq<Poll>)
    requires |Cycle(snapshot, Poll(Listed(blobs), NoFault)).emitted| > 0
    requires forall i :: 0 <= i < |polls| ==> polls[i] == Poll(Listed(blobs), RaisesAt(0))
    ensures var first := Cycle(snapshot, Poll(Listed(blobs), NoFault)).emitted[0];
      && |Loop(snapshot, polls).events| == |polls|
      && (forall j :: 0 <= j < |polls| ==> Loop(snapshot, polls).events[j] == first)
      && Loop(snapshot, polls).snapshot == snapshot
    decreases |polls|
  {
    if |polls| > 0 {
      var first := Cycle(snapshot, Poll(Listed(blobs), NoFault)).emitted[0];
      FirstNewObjectFails(snapshot, blobs);
      assert Cycle(snapshot, polls[0]) == Step([first], snapshot, Aborted);
      assert forall i :: 0 <= i < |polls[1..]| ==> polls[1..][i] == polls[i + 1];
      FailingObjectBlocksTheRest(snapshot, blobs, polls[1..]);
    }
  }

  lemma FirstNewObjectFails(snapshot: Dict, blobs: seq<Blob>)
    requires |Cycle(snapshot, Poll(Listed(blobs), NoFault)).emitted| > 0
    ensures Cycle(snapshot, Poll(Listed(blobs), RaisesAt(0)))
         == Step([Cycle(snapshot, Poll(Listed(blobs), NoFault)).emitted[0]], snapshot, Aborted)
  {
    var added := NewNames(snapshot, ListFiles(blobs).order);
    assert Cycle(snapshot, Poll(Listed(blobs), NoFault)).emitted == added;
    assert added[..1] == [added[0]];
  }

  /** The reports of passes that all start from the same snapshot, one after another. */
  function ReportsFrom(snapshot: Dict, polls: seq<Poll>): seq<Name>
    decreases |polls|
  {
    if |polls| == 0 then []
    else Cycle(snapshot, polls[0]).emitted + ReportsFrom(snapshot, polls[1..])
  }

  /** While the download of one object `x` raises in every pass, the snapshot never moves,
      however the bucket changes around `x`: each pass starts from the same snapshot and so
      reports again `x` and every new name listed before it. */
  lemma {:induction false} FailingObjectHoldsTheSnapshot(snapshot: Dict, polls: seq<Poll>, x: Name)
    requires forall i :: 0 <= i < |polls| ==>
               polls[i].listing.Listed? && RaisesOn(snapshot, ListFiles(polls[i].listing.blobs), polls[i].fault, x)
    ensures Loop(snapshot, polls) == Progress(ReportsFrom(snapshot, polls), snapshot)
    decreases |polls|
  {
    if |polls| > 0 {
      assert polls[0].listing.Listed?;
      assert Cycle(snapshot, polls[0]).next == snapshot;
      assert forall i :: 0 <= i < |polls[1..]| ==> polls[1..][i] == polls[i + 1];
      FailingObjectHoldsTheSnapshot(snapshot, polls[1..], x);
    }
  }

  /** While the download of `x` raises in every pass, a name that no listing shows before `x`
      is never reported, however often it is uploaded: a new object listed after a permanently
      failing one is never printed. */
  lemma {:induction false} NamesListedAfterFailureNeverReported(snapshot: Dict, polls: seq<Poll>, x: Name, n: Name)
    requires forall i :: 0 <= i < |polls| ==>
               polls[i].listing.Listed? && RaisesOn(snapshot, ListFiles(polls[i].listing.blobs), polls[i].fault, x)
    requires n != x
    requires forall i :: 0 <= i < |polls| ==> !ListedBefore(Names(polls[i].listing.blobs), n, x)
    ensures n !in Loop(snapshot, polls).events
    decreases |polls|
  {
    if |polls| > 0 {
      var p := polls[0];
      AbortedCycleReportsUpToFailure(snapshot, p.listing.blobs, p.fault, x);
      assert p == Poll(Listed(p.listing.blobs), p.fault);
      assert forall i :: 0 <= i < |polls[1..]| ==> polls[1..][i] == polls[i + 1];
      NamesListedAfterFailureNeverReported(snapshot, polls[1..], x, n);
    }
  }

  /** While the download of `x` raises in every pass, a new name that some listing shows before
      `x` is reported by that pass, and by every later pass that still lists it before `x`: the
      object is printed over and over. */
  lemma NamesListedBeforeFailureReportedEachPass(snapshot: Dict, polls: seq<Poll>, x: Name, n: Name, i: nat)
    requires forall i :: 0 <= i < |polls| ==>
               polls[i].listing.Listed? && RaisesOn(snapshot, ListFiles(polls[i].listing.blobs), polls[i].fault, x)
    requires i < |polls| && n !in snapshot.entries
    requires ListedBefore(Names(polls[i].listing.blobs), n, x)
    ensures n in Cycle(snapshot, polls[i]).emitted
    ensures Loop(snapshot, polls).events == ReportsFrom(snapshot, polls)
    ensures n in Loop(snapshot, polls).events
  {
    var p := polls[i];
    AbortedCycleReportsUpToFailure(snapshot, p.listing.blobs, p.fault, x);
    assert p == Poll(Listed(p.listing.blobs), p.fault);
    FailingObjectHoldsTheSnapshot(snapshot, polls, x);
    ReportsFromHasPass(snapshot, polls, i, n);
  }

  lemma {:induction false} ReportsFromHasPass(snapshot: Dict, polls: seq<Poll>, i: nat, n: Name)
    requires i < |polls| && n in Cycle(snapshot, polls[i]).emitted
    ensures n in ReportsFrom(snapshot, polls)
    decreases i
  {
    var first := Cycle(snapshot, polls[0]).emitted;
    assert ReportsFrom(snapshot, polls) == first + ReportsFrom(snapshot, polls[1..]);
    if i > 0 {
      assert polls[1..][i - 1] == polls[i];
      ReportsFromHasPass(snapshot, polls[1..], i - 1, n);
    }
  }
}
