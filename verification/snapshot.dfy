/** The bucket listing and the name-to-timestamp snapshot built from it.

    `list_files` turns the sequence of blobs the store returns into a Python
    dict `{blob.name: blob.updated}`. A Python dict remembers insertion order,
    and iterating its `items()` later visits keys in that order, so the
    snapshot is modelled as an ordered dictionary: `order` lists every key once,
    in the order it was first stored, and `entries` maps each key to its value.
 */
module Snapshots {

  /** An object's identity in the bucket (its full path, e.g. "orders/a.png"). */
  type Name = string

  /** The object's last-modified time. Only ever displayed, never compared. */
  type Time = int

  /** One element of the bucket listing. */
  datatype Blob = Blob(name: Name, updated: Time)

  /** An insertion-ordered dictionary from names to timestamps. */
  datatype Dict = Dict(order: seq<Name>, entries: map<Name, Time>)

  predicate Distinct(s: seq<Name>) {
    forall i, j :: 0 <= i < j < |s| ==> s[i] != s[j]
  }

  /** Each key occurs once in `order`, and `order` and `entries` hold the same keys. */
  ghost predicate Valid(d: Dict) {
    && Distinct(d.order)
    && (forall n :: n in d.order <==> n in d.entries)
  }

  const Empty: Dict := Dict([], map[])

  /** `d[n] = t`: an existing key keeps its position and gets the new value;
      a new key is appended at the end. */
  function Store(d: Dict, n: Name, t: Time): (r: Dict)
    requires Valid(d)
    ensures Valid(r)
  {
    if n in d.entries then Dict(d.order, d.entries[n := t])
    else Dict(d.order + [n], d.entries[n := t])
  }

  /** `d[n] = t` as a dictionary update: `n` maps to `t`, every other key keeps its value, the
      keys already present keep their positions, and only a new key lengthens the order. */
  lemma StoreUpdates(d: Dict, n: Name, t: Time)
    requires Valid(d)
    ensures var r := Store(d, n, t);
      && n in r.entries && r.entries[n] == t
      && (forall k :: k != n ==> (k in r.entries <==> k in d.entries))
      && (forall k :: k != n && k in d.entries ==> r.entries[k] == d.entries[k])
      && d.order <= r.order
      && |r.order| == |d.order| + (if n in d.entries then 0 else 1)
  {
  }

  /** The names of a listing, in listing order. */
  function Names(blobs: seq<Blob>): seq<Name>
  {
    seq(|blobs|, i requires 0 <= i < |blobs| => blobs[i].name)
  }

  /** Position of the first occurrence of `n` in `s`. */
  function FirstIndex(s: seq<Name>, n: Name): (i: nat)
    requires n in s
    ensures i < |s| && s[i] == n
    ensures n !in s[..i]
  {
    if s[0] == n then 0 else 1 + FirstIndex(s[1..], n)
  }

  /** `s` lists names of `names`, in the order of their first occurrence there. */
  ghost predicate FirstSeenOrder(s: seq<Name>, names: seq<Name>) {
    && (forall n :: n in s ==> n in names)
    && (forall p, q :: 0 <= p < q < |s| ==> FirstIndex(names, s[p]) < FirstIndex(names, s[q]))
  }

  /** `n` first occurs in `names` before `x` does. */
  ghost predicate ListedBefore(names: seq<Name>, n: Name, x: Name) {
    n in names && x in names && FirstIndex(names, n) < FirstIndex(names, x)
  }

  /** `list_files`: the dict comprehension over the listing, one `Store` per blob. */
  function ListFiles(blobs: seq<Blob>): (d: Dict)
    ensures Valid(d)
  {
    if |blobs| == 0 then Empty
    else
      var last := blobs[|blobs| - 1];
      Store(ListFiles(blobs[..|blobs| - 1]), last.name, last.updated)
  }

  /** The dict's keys are exactly the names in the listing. */
  lemma {:induction false} ListFilesKeys(blobs: seq<Blob>)
    ensures forall n :: n in ListFiles(blobs).entries <==> n in Names(blobs)
  {
    if |blobs| > 0 {
      var m := |blobs| - 1;
      ListFilesKeys(blobs[..m]);
      assert Names(blobs) == Names(blobs[..m]) + [blobs[m].name];
    }
  }

  /** When one name occurs several times in a listing, the last blob's timestamp wins. */
  lemma {:induction false} ListFilesLastWins(blobs: seq<Blob>, i: nat)
    requires i < |blobs|
    requires forall j :: i < j < |blobs| ==> blobs[j].name != blobs[i].name
    ensures blobs[i].name in ListFiles(blobs).entries
    ensures ListFiles(blobs).entries[blobs[i].name] == blobs[i].updated
  {
    var m := |blobs| - 1;
    if i < m {
      var prefix := blobs[..m];
      ListFilesLastWins(prefix, i);
      assert ListFiles(blobs) == Store(ListFiles(prefix), blobs[m].name, blobs[m].updated);
    }
  }

  lemma {:induction false} FirstIndexAppend(s: seq<Name>, x: Name, n: Name)
    requires n in s
    ensures FirstIndex(s + [x], n) == FirstIndex(s, n)
  {
    if s[0] != n {
      assert (s + [x])[1..] == s[1..] + [x];
      FirstIndexAppend(s[1..], x, n);
    }
  }

  /** Appending to `names` leaves first indices, hence the order of `s`, unchanged. */
  lemma FirstSeenOrderGrow(s: seq<Name>, names: seq<Name>, x: Name)
    requires FirstSeenOrder(s, names)
    ensures FirstSeenOrder(s, names + [x])
  {
    forall n | n in names
      ensures FirstIndex(names + [x], n) == FirstIndex(names, n)
    {
      FirstIndexAppend(names, x, n);
    }
  }

  /** A name seen for the first time comes after every name already in `s`. */
  lemma FirstSeenOrderExtend(s: seq<Name>, names: seq<Name>, x: Name)
    requires FirstSeenOrder(s, names)
    requires x !in names
    ensures FirstSeenOrder(s + [x], names + [x])
  {
    FirstSeenOrderGrow(s, names, x);
    var all := names + [x];
    assert FirstIndex(all, x) == |names|;
    forall p | 0 <= p < |s|
      ensures FirstIndex(all, s[p]) < |names|
    {
      assert s[p] in names;
      FirstIndexAppend(names, x, s[p]);
    }
  }

  /** The dict's iteration order is the order in which names first appear in the listing. */
  lemma {:induction false} ListFilesFirstSeenOrder(blobs: seq<Blob>)
    ensures FirstSeenOrder(ListFiles(blobs).order, Names(blobs))
  {
    if |blobs| > 0 {
      var m := |blobs| - 1;
      var prefix := blobs[..m];
      var d' := ListFiles(prefix);
      var x := blobs[m].name;
      assert Names(blobs) == Names(prefix) + [x];
      ListFilesKeys(prefix);
      ListFilesFirstSeenOrder(prefix);
      if x in d'.entries {
        FirstSeenOrderGrow(d'.order, Names(prefix), x);
      } else {
        FirstSeenOrderExtend(d'.order, Names(prefix), x);
      }
    }
  }

  /** Two listings with the same names in the same order give the same keys in the same order. */
  lemma {:induction false} ListFilesOrderByNames(a: seq<Blob>, b: seq<Blob>)
    requires Names(a) == Names(b)
    ensures ListFiles(a).order == ListFiles(b).order
    ensures ListFiles(a).entries.Keys == ListFiles(b).entries.Keys
  {
    if |a| > 0 {
      var m := |a| - 1;
      assert Names(a[..m]) == Names(b[..m]) by {
        assert Names(a)[..m] == Names(a[..m]);
        assert Names(b)[..m] == Names(b[..m]);
      }
      assert a[m].name == Names(a)[m] == Names(b)[m] == b[m].name;
      ListFilesOrderByNames(a[..m], b[..m]);
    }
  }

  /** Without its last element a distinct sequence stays distinct and no longer holds that element. */
  lemma DistinctDropLast(s: seq<Name>)
    requires |s| > 0 && Distinct(s)
    ensures Distinct(s[..|s| - 1])
    ensures s[|s| - 1] !in s[..|s| - 1]
  {
  }

  lemma DistinctAt(s: seq<Name>, i: int, j: int)
    requires Distinct(s) && 0 <= i < j < |s|
    ensures s[i] != s[j]
  {
  }

  /** A bucket lists each object once; then the dict iterates the names in listing order. */
  lemma {:induction false} ListFilesOfDistinctNames(blobs: seq<Blob>)
    requires Distinct(Names(blobs))
    ensures ListFiles(blobs).order == Names(blobs)
  {
    if |blobs| > 0 {
      var m := |blobs| - 1;
      var prefix := blobs[..m];
      assert Names(blobs) == Names(prefix) + [blobs[m].name];
      DistinctDropLast(Names(blobs));
      assert Names(blobs)[..m] == Names(prefix);
      ListFilesOfDistinctNames(prefix);
      ListFilesKeys(prefix);
    }
  }

  /** With each name listed once, every blob's timestamp is the one stored under its name. */
  lemma {:induction false} ListFilesStoresEachBlob(blobs: seq<Blob>)
    requires Distinct(Names(blobs))
    ensures forall i :: 0 <= i < |blobs| ==>
      blobs[i].name in ListFiles(blobs).entries && ListFiles(blobs).entries[blobs[i].name] == blobs[i].updated
  {
    forall i | 0 <= i < |blobs|
      ensures blobs[i].name in ListFiles(blobs).entries && ListFiles(blobs).entries[blobs[i].name] == blobs[i].updated
    {
      DistinctNamesNoLater(blobs, i);
      ListFilesLastWins(blobs, i);
    }
  }

  lemma {:induction false} DistinctNamesNoLater(blobs: seq<Blob>, i: nat)
    requires Distinct(Names(blobs)) && i < |blobs|
    ensures forall j :: i < j < |blobs| ==> blobs[j].name != blobs[i].name
  {
    forall j | i < j < |blobs|
      ensures blobs[j].name != blobs[i].name
    {
      DistinctAt(Names(blobs), i, j);
    }
  }

  /** A name lies in the first `j` items exactly when it first occurs before position `j`. */
  lemma InPrefixIffBefore(s: seq<Name>, n: Name, j: nat)
    requires n in s && j <= |s|
    ensures n in s[..j] <==> FirstIndex(s, n) < j
  {
    var f := FirstIndex(s, n);
    if f < j {
      assert s[..j][f] == n;
    }
  }

  /** A sequence in first-seen order of `names` ranks any two of its members as `names` does. */
  lemma FirstSeenOrderCompare(s: seq<Name>, names: seq<Name>, a: Name, b: Name)
    requires FirstSeenOrder(s, names)
    requires a in s && b in s
    ensures FirstIndex(s, a) < FirstIndex(s, b) <==> ListedBefore(names, a, b)
  {
    var p, q := FirstIndex(s, a), FirstIndex(s, b);
    if q < p {
      assert FirstIndex(names, s[q]) < FirstIndex(names, s[p]);
    }
  }
}
