/** One pass of the `monitor_storage` loop body.

    A pass lists the bucket, walks the new dict's items in order, and for
    every name missing from the previous snapshot reports it ("new file
    detected"), downloads it and hands it to the printer. If the pass finishes,
    the previous snapshot is replaced by the new dict; if anything raises, the
    exception handler runs instead and the previous snapshot survives.
 */
module PollCycle {
  import opened Snapshots

  /** What the bucket listing call returned. */
  datatype Listing = ListError | Listed(blobs: seq<Blob>)

  /** Whether the download-and-print of a new name raises: `RaisesAt(k)` fails on
      the k-th new name of the pass (counting from 0). An index at or past the
      number of new names never fires. */
  datatype Fault = NoFault | RaisesAt(index: nat)

  /** Everything a pass depends on besides the snapshot. */
  datatype Poll = Poll(listing: Listing, fault: Fault)

  /** Completed: the pass reached the snapshot update. Aborted: an exception reached the handler. */
  datatype Outcome = Completed | Aborted

  /** The names reported as new, in report order, and the snapshot for the next pass. */
  datatype Step = Step(emitted: seq<Name>, next: Dict, outcome: Outcome)

  /** `a` is `b` with some elements dropped, the rest kept in order. */
  predicate SubseqOf(a: seq<Name>, b: seq<Name>)
    decreases |b|
  {
    if |a| == 0 then true
    else if |b| == 0 then false
    else if a[|a| - 1] == b[|b| - 1] then SubseqOf(a[..|a| - 1], b[..|b| - 1])
    else SubseqOf(a, b[..|b| - 1])
  }

  /** The names of `order` that the snapshot `previous` lacks, in the order of `order`. */
  function NewNames(previous: Dict, order: seq<Name>): (r: seq<Name>)
  {
    if |order| == 0 then []
    else
      var rest := NewNames(previous, order[..|order| - 1]);
      var n := order[|order| - 1];
      if n in previous.entries then rest else rest + [n]
  }

  /** The loop body after the listing: report each name of `current` missing from
      `previous`, in dict order, then replace the snapshot by `current` -- unless the
      download-and-print of a reported name raises, which leaves `previous` in place. */
  function Scan(previous: Dict, current: Dict, fault: Fault): (s: Step)
    ensures s.outcome == Aborted ==> s.next == previous
    ensures s.outcome == Completed ==> s.next == current
    ensures forall n :: n in s.emitted ==> n in current.order && n !in previous.entries
    ensures s.outcome == Aborted <==> fault.RaisesAt? && fault.index < |NewNames(previous, current.order)|
    ensures s.outcome == Aborted ==> |s.emitted| == fault.index + 1
  {
    NewNamesMembers(previous, current.order);
    var added := NewNames(previous, current.order);
    if fault.RaisesAt? && fault.index < |added| then
      Step(added[..fault.index + 1], previous, Aborted)
    else
      Step(added, current, Completed)
  }

  /** In a scan of `current`, the download of `x` is the one that raises: the fault's index is
      the position of `x` among the new names. */
  predicate RaisesOn(previous: Dict, current: Dict, fault: Fault, x: Name) {
    var added := NewNames(previous, current.order);
    fault.RaisesAt? && fault.index < |added| && added[fault.index] == x
  }

  /** One pass: list the bucket, then scan. A failed listing raises before anything is reported. */
  function Cycle(previous: Dict, poll: Poll): (s: Step)
    ensures poll.listing.ListError? ==> s == Step([], previous, Aborted)
    ensures s.outcome == Aborted ==> s.next == previous
    ensures s.outcome == Completed ==> poll.listing.Listed? && s.next == ListFiles(poll.listing.blobs)
    ensures forall n :: n in s.emitted ==>
              poll.listing.Listed? && n in Names(poll.listing.blobs) && n !in previous.entries
  {
    match poll.listing
    case ListError => Step([], previous, Aborted)
    case Listed(blobs) =>
      ListFilesKeys(blobs);
      Scan(previous, ListFiles(blobs), poll.fault)
  }

  /** The scan as the loop in the source runs it: one item at a time, stopping at the first raise. */
  method RunScan(previous: Dict, current: Dict, fault: Fault) returns (emitted: seq<Name>, next: Dict, outcome: Outcome)
    ensures Step(emitted, next, outcome) == Scan(previous, current, fault)
  {
    emitted := [];
    var i := 0;
    while i < |current.order|
      invariant 0 <= i <= |current.order|
      invariant emitted == NewNames(previous, current.order[..i])
      invariant fault.RaisesAt? ==> |emitted| <= fault.index
    {
      var name := current.order[i];
      NewNamesStep(previous, current.order, i);
      if name !in previous.entries {
        var handled := |emitted|;
        emitted := emitted + [name];
        if fault.RaisesAt? && fault.index == handled {
          NewNamesPrefix(previous, current.order, i + 1);
          return emitted, previous, Aborted;
        }
      }
      i := i + 1;
    }
    assert current.order[..i] == current.order;
    return emitted, current, Completed;
  }

  /** A name is reported exactly when it is in the dict and not in the snapshot. */
  lemma {:induction false} NewNamesMembers(previous: Dict, order: seq<Name>)
    ensures forall n :: n in NewNames(previous, order) <==> n in order && n !in previous.entries
  {
    if |order| > 0 {
      var m := |order| - 1;
      NewNamesMembers(previous, order[..m]);
      assert order == order[..m] + [order[m]];
    }
  }

  /** A dict whose names the snapshot all holds yields no report. */
  lemma {:induction false} NewNamesNone(previous: Dict, order: seq<Name>)
    requires forall n :: n in order ==> n in previous.entries
    ensures NewNames(previous, order) == []
  {
    if |order| > 0 {
      var m := |order| - 1;
      assert order[m] in order;
      NewNamesNone(previous, order[..m]);
    }
  }

  /** Scanning one more item appends it exactly when the snapshot lacks it. */
  lemma NewNamesStep(previous: Dict, order: seq<Name>, i: nat)
    requires i < |order|
    ensures NewNames(previous, order[..i + 1]) ==
            NewNames(previous, order[..i]) + (if order[i] in previous.entries then [] else [order[i]])
  {
    assert order[..i + 1][..i] == order[..i];
  }

  /** Scanning a prefix of the dict reports a prefix of what the whole scan reports. */
  lemma {:induction false} NewNamesPrefix(previous: Dict, order: seq<Name>, i: nat)
    requires i <= |order|
    ensures NewNames(previous, order[..i]) <= NewNames(previous, order)
  {
    if i < |order| {
      var m := |order| - 1;
      assert order[..m][..i] == order[..i];
      NewNamesPrefix(previous, order[..m], i);
    } else {
      assert order[..i] == order;
    }
  }

  /** Reported names keep the dict's order. */
  lemma {:induction false} NewNamesInOrder(previous: Dict, order: seq<Name>)
    ensures SubseqOf(NewNames(previous, order), order)
  {
    if |order| > 0 {
      var m := |order| - 1;
      var rest := NewNames(previous, order[..m]);
      NewNamesInOrder(previous, order[..m]);
      var r := NewNames(previous, order);
      if order[m] !in previous.entries {
        assert r == rest + [order[m]];
        assert r[..|rest|] == rest;
      } else {
        assert r == rest;
        if |rest| > 0 {
          NewNamesMembers(previous, order[..m]);
          assert rest[|rest| - 1] in rest;
        }
      }
    }
  }

  /** A name is reported at most once per pass, because the dict holds it at most once. */
  lemma {:induction false} NewNamesDistinct(previous: Dict, order: seq<Name>)
    requires Distinct(order)
    ensures Distinct(NewNames(previous, order))
  {
    if |order| > 0 {
      var m := |order| - 1;
      assert Distinct(order[..m]);
      NewNamesDistinct(previous, order[..m]);
      NewNamesMembers(previous, order[..m]);
      assert order[m] !in order[..m];
    }
  }

  /** Only membership in the old snapshot matters, and only for names that are listed now. */
  lemma {:induction false} NewNamesAgree(p1: Dict, p2: Dict, order: seq<Name>)
    requires forall n :: n in order ==> (n in p1.entries <==> n in p2.entries)
    ensures NewNames(p1, order) == NewNames(p2, order)
  {
    if |order| > 0 {
      var m := |order| - 1;
      assert order[m] in order;
      NewNamesAgree(p1, p2, order[..m]);
    }
  }

  /** Filtering a concatenation filters each part. */
  lemma {:induction false} NewNamesAppend(previous: Dict, a: seq<Name>, b: seq<Name>)
    ensures NewNames(previous, a + b) == NewNames(previous, a) + NewNames(previous, b)
  {
    if |b| > 0 {
      var m := |b| - 1;
      assert (a + b)[..|a + b| - 1] == a + b[..m];
      NewNamesAppend(previous, a, b[..m]);
    } else {
      assert a + b == a;
    }
  }

  /** A new name at position `j` splits the report list: the new names before it, the name,
      then the new names after it. */
  lemma NewNamesAround(previous: Dict, order: seq<Name>, j: nat)
    requires j < |order| && order[j] !in previous.entries
    ensures NewNames(previous, order)
         == NewNames(previous, order[..j]) + [order[j]] + NewNames(previous, order[j + 1..])
  {
    var x := order[j];
    assert order == order[..j] + [x] + order[j + 1..];
    NewNamesAppend(previous, order[..j] + [x], order[j + 1..]);
    NewNamesAppend(previous, order[..j], [x]);
    assert NewNames(previous, [x]) == [x] by {
      assert [x][..0] == [];
    }
  }

  lemma {:induction false} SubseqMembers(a: seq<Name>, b: seq<Name>)
    requires SubseqOf(a, b)
    ensures forall n :: n in a ==> n in b
    decreases |b|
  {
    if |a| > 0 {
      var ma, mb := |a| - 1, |b| - 1;
      if a[ma] == b[mb] {
        SubseqMembers(a[..ma], b[..mb]);
        assert a == a[..ma] + [a[ma]];
        assert b == b[..mb] + [b[mb]];
      } else {
        SubseqMembers(a, b[..mb]);
        assert b == b[..mb] + [b[mb]];
      }
    }
  }

  /** Dropping elements keeps first-seen order. */
  lemma {:induction false} SubseqKeepsOrder(a: seq<Name>, b: seq<Name>, names: seq<Name>)
    requires SubseqOf(a, b)
    requires FirstSeenOrder(b, names)
    ensures FirstSeenOrder(a, names)
    decreases |b|
  {
    SubseqMembers(a, b);
    if |a| > 0 {
      var ma, mb := |a| - 1, |b| - 1;
      assert FirstSeenOrder(b[..mb], names);
      if a[ma] == b[mb] {
        SubseqKeepsOrder(a[..ma], b[..mb], names);
        SubseqMembers(a[..ma], b[..mb]);
        forall p | 0 <= p < ma
          ensures FirstIndex(names, a[p]) < FirstIndex(names, a[ma])
        {
          assert a[p] == a[..ma][p];
          assert a[p] in b[..mb];
          var r :| 0 <= r < mb && b[r] == a[p];
        }
      } else {
        SubseqKeepsOrder(a, b[..mb], names);
      }
    }
  }

  // ---------------------------------------------------------------------------
  // Properties of a pass
  // ---------------------------------------------------------------------------

  /** A finished scan reports exactly the dict's names missing from the old snapshot, each once,
      and installs the dict itself: nothing of the old snapshot is merged in. */
  lemma ScanEmitsExactlyNew(previous: Dict, current: Dict, fault: Fault)
    requires Valid(current)
    ensures var s := Scan(previous, current, fault);
      s.outcome == Completed ==>
        && (forall n :: n in s.emitted <==> n in current.entries && n !in previous.entries)
        && Distinct(s.emitted)
        && s.next == current
  {
    NewNamesMembers(previous, current.order);
    NewNamesDistinct(previous, current.order);
  }

  /** A dict holding exactly the snapshot's names makes the scan report nothing and finish,
      whatever would have raised. */
  lemma ScanQuietWhenKeysUnchanged(previous: Dict, current: Dict, fault: Fault)
    requires Valid(current)
    requires current.entries.Keys == previous.entries.Keys
    ensures Scan(previous, current, fault) == Step([], current, Completed)
  {
    assert forall n :: n in current.order ==> n in previous.entries;
    NewNamesNone(previous, current.order);
  }

  /** Deletions and stored timestamps are invisible: two snapshots that agree on which of the
      dict's names they hold give the same reports and the same outcome. */
  lemma ScanIgnoresUnlistedEntries(p1: Dict, p2: Dict, current: Dict, fault: Fault)
    requires forall n :: n in current.order ==> (n in p1.entries <==> n in p2.entries)
    ensures Scan(p1, current, fault).emitted == Scan(p2, current, fault).emitted
    ensures Scan(p1, current, fault).outcome == Scan(p2, current, fault).outcome
  {
    NewNamesAgree(p1, p2, current.order);
  }

  /** Timestamps in the current dict are only displayed: dicts with the same key order give the
      same reports and the same outcome. */
  lemma ScanBySameOrder(previous: Dict, ca: Dict, cb: Dict, fault: Fault)
    requires ca.order == cb.order
    ensures Scan(previous, ca, fault).emitted == Scan(previous, cb, fault).emitted
    ensures Scan(previous, ca, fault).outcome == Scan(previous, cb, fault).outcome
  {
  }

  /** A finished pass reports exactly the listed names missing from the old snapshot, each
      once, and the new snapshot is the listing's dict: an old name no longer listed is gone. */
  lemma CompletedCycleEmitsExactlyNew(previous: Dict, blobs: seq<Blob>, fault: Fault)
    ensures var s := Cycle(previous, Poll(Listed(blobs), fault));
      s.outcome == Completed ==>
        && (forall n :: n in s.emitted <==> n in Names(blobs) && n !in previous.entries)
        && Distinct(s.emitted)
        && s.next == ListFiles(blobs)
        && (forall n :: n in previous.entries && n !in Names(blobs) ==> n !in s.next.entries)
  {
    ListFilesKeys(blobs);
    ScanEmitsExactlyNew(previous, ListFiles(blobs), fault);
  }

  lemma PrefixKeepsOrder(a: seq<Name>, b: seq<Name>, names: seq<Name>)
    requires a <= b
    requires FirstSeenOrder(b, names)
    ensures FirstSeenOrder(a, names)
  {
    forall n | n in a
      ensures n in b
    {
      var k :| 0 <= k < |a| && a[k] == n;
      assert b[k] == n;
    }
  }

  /** Reports come out in the order the names first appear in the listing, whether or not the
      pass finishes. */
  lemma CycleEmitsInListingOrder(previous: Dict, blobs: seq<Blob>, fault: Fault)
    ensures FirstSeenOrder(Cycle(previous, Poll(Listed(blobs), fault)).emitted, Names(blobs))
  {
    var current := ListFiles(blobs);
    var added := NewNames(previous, current.order);
    var s := Cycle(previous, Poll(Listed(blobs), fault));
    ListFilesFirstSeenOrder(blobs);
    NewNamesInOrder(previous, current.order);
    SubseqKeepsOrder(added, current.order, Names(blobs));
    if fault.RaisesAt? && fault.index < |added| {
      assert s.emitted == added[..fault.index + 1];
      PrefixKeepsOrder(s.emitted, added, Names(blobs));
    } else {
      assert s.emitted == added;
    }
  }

  /** If the listing holds exactly the names of the snapshot, the pass reports nothing and
      finishes, whatever the timestamps and whatever would have raised. */
  lemma QuietWhenKeysUnchanged(previous: Dict, blobs: seq<Blob>, fault: Fault)
    requires ListFiles(blobs).entries.Keys == previous.entries.Keys
    ensures Cycle(previous, Poll(Listed(blobs), fault)) == Step([], ListFiles(blobs), Completed)
  {
    ScanQuietWhenKeysUnchanged(previous, ListFiles(blobs), fault);
  }

  /** Scanning the snapshot's own dict again is a no-op: nothing is reported, nothing can fail
      and the snapshot stays as it is. */
  lemma ScanOfSnapshotIsNoOp(snapshot: Dict, fault: Fault)
    requires Valid(snapshot)
    ensures Scan(snapshot, snapshot, fault) == Step([], snapshot, Completed)
  {
    ScanQuietWhenKeysUnchanged(snapshot, snapshot, fault);
  }

  /** Running a pass against an unchanged bucket is a no-op. */
  lemma UnchangedListingIsNoOp(blobs: seq<Blob>, fault: Fault)
    ensures var previous := ListFiles(blobs);
      Cycle(previous, Poll(Listed(blobs), fault)) == Step([], previous, Completed)
  {
    ScanOfSnapshotIsNoOp(ListFiles(blobs), fault);
  }

  /** A deleted object is not reported, and neither the snapshot's timestamps nor its names that
      are no longer listed affect the pass. */
  lemma CycleIgnoresUnlistedEntries(p1: Dict, p2: Dict, blobs: seq<Blob>, fault: Fault)
    requires forall n :: n in Names(blobs) ==> (n in p1.entries <==> n in p2.entries)
    ensures Cycle(p1, Poll(Listed(blobs), fault)).emitted == Cycle(p2, Poll(Listed(blobs), fault)).emitted
    ensures Cycle(p1, Poll(Listed(blobs), fault)).outcome == Cycle(p2, Poll(Listed(blobs), fault)).outcome
  {
    ListFilesKeys(blobs);
    ScanIgnoresUnlistedEntries(p1, p2, ListFiles(blobs), fault);
  }

  /** A changed timestamp is not a change: two listings with the same names in the same order
      give the same reports and the same outcome. */
  lemma CycleIgnoresTimestamps(previous: Dict, a: seq<Blob>, b: seq<Blob>, fault: Fault)
    requires Names(a) == Names(b)
    ensures Cycle(previous, Poll(Listed(a), fault)).emitted == Cycle(previous, Poll(Listed(b), fault)).emitted
    ensures Cycle(previous, Poll(Listed(a), fault)).outcome == Cycle(previous, Poll(Listed(b), fault)).outcome
  {
    ListFilesOrderByNames(a, b);
    ScanBySameOrder(previous, ListFiles(a), ListFiles(b), fault);
  }

  /** After a pass aborts, the next pass over the same listing reports again every name the
      aborted pass reported, including the ones it had already downloaded and printed, and
      then the names the abort held back. */
  lemma AbortedCycleIsRepeated(previous: Dict, blobs: seq<Blob>, k: nat)
    ensures var s1 := Cycle(previous, Poll(Listed(blobs), RaisesAt(k)));
            var s2 := Cycle(s1.next, Poll(Listed(blobs), NoFault));
      s1.outcome == Aborted ==>
        && s2.outcome == Completed
        && s1.emitted <= s2.emitted
        && |s1.emitted| == k + 1 <= |s2.emitted|
        && s2.next == ListFiles(blobs)
  {
  }

  /** When the download of `x` raises, the scan has reported the new names that come before
      `x` in the dict, then `x`, and nothing after it; the snapshot stays. */
  lemma ScanStopsAtFailingName(previous: Dict, current: Dict, fault: Fault, x: Name)
    requires Valid(current)
    requires RaisesOn(previous, current, fault, x)
    ensures var s := Scan(previous, current, fault);
      && s.outcome == Aborted
      && s.next == previous
      && x in current.order && x !in previous.entries
      && s.emitted == NewNames(previous, current.order[..FirstIndex(current.order, x)]) + [x]
      && (forall n :: n in s.emitted <==>
            n == x || (n in current.order[..FirstIndex(current.order, x)] && n !in previous.entries))
  {
    var order := current.order;
    var added := NewNames(previous, order);
    NewNamesMembers(previous, order);
    assert x in added;
    var j := FirstIndex(order, x);
    var before := NewNames(previous, order[..j]);
    NewNamesAround(previous, order, j);
    NewNamesDistinct(previous, order);
    var k := fault.index;
    if k != |before| {
      var lo, hi := if k < |before| then k else |before|, if k < |before| then |before| else k;
      DistinctAt(added, lo, hi);
      assert false;
    }
    assert added[..k + 1] == before + [x];
    NewNamesMembers(previous, order[..j]);
  }

  /** A pass whose download of `x` raises reports exactly `x` and the new names the listing
      shows before `x`: every new name listed after `x` waits, and the snapshot stays. */
  lemma AbortedCycleReportsUpToFailure(previous: Dict, blobs: seq<Blob>, fault: Fault, x: Name)
    requires RaisesOn(previous, ListFiles(blobs), fault, x)
    ensures var s := Cycle(previous, Poll(Listed(blobs), fault));
      && s.outcome == Aborted
      && s.next == previous
      && x in Names(blobs) && x !in previous.entries
      && (forall n :: n in s.emitted <==>
            n == x || (n !in previous.entries && ListedBefore(Names(blobs), n, x)))
  {
    var current := ListFiles(blobs);
    var order := current.order;
    ListFilesKeys(blobs);
    ListFilesFirstSeenOrder(blobs);
    ScanStopsAtFailingName(previous, current, fault, x);
    var j := FirstIndex(order, x);
    forall n | n !in previous.entries
      ensures n in order[..j] <==> ListedBefore(Names(blobs), n, x)
    {
      if n in order {
        InPrefixIffBefore(order, n, j);
        FirstSeenOrderCompare(order, Names(blobs), n, x);
      }
    }
  }
}
