/** One identifier's bucket: the links found for that desktop-file id, one per data
    directory, kept in increasing order of the directory's priority number. The head of
    the bucket is the entry that wins (the lowest number, the earliest directory). */
module Buckets {
  import opened Links

  /** `ObtLinkBaseEntry`: a link and the priority of the directory it was found under. */
  datatype Entry = Entry(priority: int, link: Link)

  /** Priorities strictly increase along the bucket, so no directory appears twice. */
  ghost predicate StrictlySorted(b: seq<Entry>) {
    forall i, j :: 0 <= i < j < |b| ==> b[i].priority < b[j].priority
  }

  /** Index of the first entry whose priority number is at least `p`, or `|b|` when there
      is none: the position before which an entry of priority `p` belongs. */
  function FirstAtLeast(b: seq<Entry>, p: int): (k: nat)
    ensures k <= |b|
    ensures forall j :: 0 <= j < k ==> b[j].priority < p
    ensures k < |b| ==> b[k].priority >= p
  {
    if b == [] || b[0].priority >= p then 0 else 1 + FirstAtLeast(b[1..], p)
  }

  /** Index of the first entry whose link was read from `path`, or `|b|` when there is none. */
  function FirstWithSource(b: seq<Entry>, path: string): (k: nat)
    ensures k <= |b|
    ensures forall j :: 0 <= j < k ==> b[j].link.sourceFile != path
    ensures k < |b| ==> b[k].link.sourceFile == path
  {
    if b == [] || b[0].link.sourceFile == path then 0 else 1 + FirstWithSource(b[1..], path)
  }

  /** The bucket already holds an entry from the directory of priority `p`: the entry
      found by the priority scan has exactly that priority. */
  predicate PriorityTaken(b: seq<Entry>, p: int) {
    var k := FirstAtLeast(b, p);
    k < |b| && b[k].priority == p
  }

  /** `g_slist_insert_before`: `e` placed at index `k`. */
  function InsertAt(b: seq<Entry>, k: nat, e: Entry): seq<Entry>
    requires k <= |b|
  {
    b[..k] + [e] + b[k..]
  }

  /** `g_slist_delete_link`: the entry at index `k` taken out. */
  function RemoveAt(b: seq<Entry>, k: nat): seq<Entry>
    requires k < |b|
  {
    b[..k] + b[k + 1..]
  }

  /** `find_base_entry_priority`: walks the list until an entry's priority number
      reaches `p`. */
  method FindBaseEntryPriority(b: seq<Entry>, p: int) returns (k: nat)
    ensures k == FirstAtLeast(b, p)
  {
    k := 0;
    while k < |b| && b[k].priority < p
      invariant k <= |b|
      invariant forall j :: 0 <= j < k ==> b[j].priority < p
    {
      k := k + 1;
    }
  }

  /** `find_base_entry_path`: walks the list until an entry's link came from `path`. */
  method FindBaseEntryPath(b: seq<Entry>, path: string) returns (k: nat)
    ensures k == FirstWithSource(b, path)
  {
    k := 0;
    while k < |b| && b[k].link.sourceFile != path
      invariant k <= |b|
      invariant forall j :: 0 <= j < k ==> b[j].link.sourceFile != path
    {
      k := k + 1;
    }
  }

  /** On a sorted bucket the priority scan's verdict is plain membership: the bucket
      holds an entry of priority `p` exactly when the scan stops on one. */
  lemma PriorityTakenIff(b: seq<Entry>, p: int)
    requires StrictlySorted(b)
    ensures PriorityTaken(b, p) <==> exists i :: 0 <= i < |b| && b[i].priority == p
  {
    var k := FirstAtLeast(b, p);
    if i :| 0 <= i < |b| && b[i].priority == p {
      assert k <= i;
      if k < i {
        assert b[k].priority < b[i].priority;
      }
    }
  }

  /** Where each entry of `InsertAt(b, k, e)` comes from. */
  lemma InsertAtIndex(b: seq<Entry>, k: nat, e: Entry)
    requires k <= |b|
    ensures |InsertAt(b, k, e)| == |b| + 1
    ensures forall j :: 0 <= j < |b| + 1 ==>
      InsertAt(b, k, e)[j] == (if j < k then b[j] else if j == k then e else b[j - 1])
  {
  }

  /** Inserting an entry whose priority is not yet present at the scanned position keeps
      the bucket strictly sorted; the new entry follows every smaller priority and precedes
      every larger one, and a second scan for the same priority now stops on it. */
  lemma InsertKeepsSorted(b: seq<Entry>, e: Entry)
    requires StrictlySorted(b)
    requires !PriorityTaken(b, e.priority)
    ensures var k := FirstAtLeast(b, e.priority);
      var r := InsertAt(b, k, e);
      && StrictlySorted(r)
      && r[k] == e
      && (forall j :: 0 <= j < k ==> r[j].priority < e.priority)
      && (forall j :: k < j < |r| ==> r[j].priority > e.priority)
      && FirstAtLeast(r, e.priority) == k
      && PriorityTaken(r, e.priority)
  {
    var k := FirstAtLeast(b, e.priority);
    var r := InsertAt(b, k, e);
    InsertAtIndex(b, k, e);
    InsertedBetween(b, k, e);
    assert forall j :: 0 <= j < k ==> r[j].priority < r[k].priority;
    FirstAtLeastUnique(r, e.priority, k);
  }

  /** The sortedness half of `InsertKeepsSorted`: an entry placed after every smaller
      priority and before every larger one keeps the bucket strictly sorted. */
  lemma InsertedBetween(b: seq<Entry>, k: nat, e: Entry)
    requires StrictlySorted(b) && k <= |b|
    requires forall j :: 0 <= j < k ==> b[j].priority < e.priority
    requires k < |b| ==> b[k].priority > e.priority
    ensures StrictlySorted(InsertAt(b, k, e))
  {
    var lo, hi := b[..k], b[k..];
    SliceSorted(b, k);
    TailAbove(b, k, e.priority);
    assert forall i :: 0 <= i < |lo| ==> lo[i] == b[i];
    SortedConcat(lo, [e]);
    SortedConcat(lo + [e], hi);
  }

  /** The inserted entry heads the bucket exactly when the bucket was empty or its head
      had a larger priority number. */
  lemma InsertHeadsIff(b: seq<Entry>, e: Entry)
    requires StrictlySorted(b)
    requires !PriorityTaken(b, e.priority)
    ensures var k := FirstAtLeast(b, e.priority);
      InsertAt(b, k, e)[0] == e <==> (b == [] || e.priority < b[0].priority)
  {
    var k := FirstAtLeast(b, e.priority);
    InsertAtIndex(b, k, e);
  }

  /** Both sides of a cut through a strictly sorted bucket are strictly sorted. */
  lemma SliceSorted(b: seq<Entry>, k: nat)
    requires StrictlySorted(b) && k <= |b|
    ensures StrictlySorted(b[..k]) && StrictlySorted(b[k..])
  {
    assert forall i :: 0 <= i < |b| - k ==> b[k..][i] == b[k + i];
  }

  /** In a strictly sorted bucket whose `k`-th entry is above `p`, so is every later one. */
  lemma TailAbove(b: seq<Entry>, k: nat, p: int)
    requires StrictlySorted(b) && k <= |b|
    requires k < |b| ==> b[k].priority > p
    ensures forall j :: 0 <= j < |b[k..]| ==> b[k..][j].priority > p
  {
    forall j | 0 <= j < |b[k..]|
      ensures b[k..][j].priority > p
    {
      assert b[k..][j] == b[k + j];
      if j > 0 {
        assert b[k].priority < b[k + j].priority;
      }
    }
  }

  /** Two strictly sorted runs, the first wholly below the second, make one. */
  lemma SortedConcat(lo: seq<Entry>, hi: seq<Entry>)
    requires StrictlySorted(lo) && StrictlySorted(hi)
    requires forall i, j :: 0 <= i < |lo| && 0 <= j < |hi| ==> lo[i].priority < hi[j].priority
    ensures StrictlySorted(lo + hi)
  {
    var r := lo + hi;
    forall i, j | 0 <= i < j < |r|
      ensures r[i].priority < r[j].priority
    {
      if j < |lo| {
        assert r[i] == lo[i] && r[j] == lo[j];
      } else if i < |lo| {
        assert r[i] == lo[i] && r[j] == hi[j - |lo|];
      } else {
        assert r[i] == hi[i - |lo|] && r[j] == hi[j - |lo|];
      }
    }
  }

  /** Taking an entry out of a strictly sorted bucket keeps it strictly sorted, and the
      other entries keep their order. */
  lemma RemoveKeepsSorted(b: seq<Entry>, k: nat)
    requires StrictlySorted(b)
    requires k < |b|
    ensures StrictlySorted(RemoveAt(b, k))
    ensures forall j :: 0 <= j < |b| - 1 ==> RemoveAt(b, k)[j] == (if j < k then b[j] else b[j + 1])
  {
    var r := RemoveAt(b, k);
    assert forall j :: 0 <= j < |r| ==> r[j] == (if j < k then b[j] else b[j + 1]);
  }

  /** The two postconditions of `FirstAtLeast` pin the index down. */
  lemma FirstAtLeastUnique(b: seq<Entry>, p: int, k: nat)
    requires k <= |b|
    requires forall j :: 0 <= j < k ==> b[j].priority < p
    requires k < |b| ==> b[k].priority >= p
    ensures FirstAtLeast(b, p) == k
  {
  }

  /** The two postconditions of `FirstWithSource` pin the index down. */
  lemma FirstWithSourceUnique(b: seq<Entry>, path: string, k: nat)
    requires k <= |b|
    requires forall j :: 0 <= j < k ==> b[j].link.sourceFile != path
    requires k < |b| ==> b[k].link.sourceFile == path
    ensures FirstWithSource(b, path) == k
  {
  }
}
