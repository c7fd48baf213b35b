/** The link base's indexes as one value, the invariant that ties them together, and the
    effect of each branch of the update handler on that value. The class in `LinkBase`
    changes its fields step by step; its methods promise that the step as a whole is the
    function given here. */
module RegistryState {
  import opened Links
  import opened Buckets
  import opened CategoryIndex

  /** Where a tracked link lives: the identifier whose bucket owns it and the priority of
      the directory it came from. */
  datatype Slot = Slot(id: string, priority: int)

  /** The installed update function and the user data passed along with it. */
  datatype Callback = Callback(func: nat, data: nat)

  /** `OBT_LINKBASE_ADDED` and `OBT_LINKBASE_REMOVED`. */
  datatype Change = LinkAdded | LinkRemoved

  /** One call of the update function: which function, what changed, and the link. */
  datatype Event = Event(to: Callback, change: Change, link: Link)

  /** The kinds of filesystem notification the watch delivers. */
  datatype NotifyType = Added | Removed | Modified | SelfRemoved

  /** Identifier -> bucket (`base`). */
  type Base = map<string, seq<Entry>>

  /** Everything an update can change: the two indexes, the owner of each tracked link
      (which the source keeps implicitly, as the list node holding it) and the calls made
      to the update function so far. */
  datatype Db = Db(base: Base, categories: Index, tracked: map<Link, Slot>, events: seq<Event>)

  /** What `update` works with once the file has passed the `.desktop` suffix test:
      the notification kind, the id the file name maps to, the full path, the priority of
      the notified directory, and whether the file parsed into a link that is to be shown. */
  datatype Request = Request(kind: NotifyType, id: string, fullPath: string, priority: int, shown: bool)

  /** The bucket for `id`; nothing when the id has none (`g_hash_table_lookup` gives NULL). */
  function BucketOf(base: Base, id: string): seq<Entry> {
    if id in base then base[id] else []
  }

  /** The update function is called only while one is installed. */
  function Emit(cb: Option<Callback>, change: Change, l: Link): seq<Event> {
    if cb.Some? then [Event(cb.value, change, l)] else []
  }

  /** `g_str_has_suffix(sub_path, ".desktop")`. */
  predicate IsDesktopFile(subPath: string) {
    |subPath| >= 8 && subPath[|subPath| - 8..] == ".desktop"
  }

  // ---------------------------------------------------------------- the invariant

  /** Every bucket in the map is non-empty and strictly sorted by priority. */
  ghost predicate BucketsSorted(base: Base) {
    forall id :: id in base ==> base[id] != [] && StrictlySorted(base[id])
  }

  /** `id`'s bucket holds an entry whose link is `l`. */
  ghost predicate Holds(base: Base, id: string, l: Link) {
    id in base && exists i :: 0 <= i < |base[id]| && base[id][i].link == l
  }

  /** Every entry's link is tracked, with the entry's identifier and priority as its slot. */
  ghost predicate EntriesTracked(base: Base, tracked: map<Link, Slot>) {
    forall id, i :: id in base && 0 <= i < |base[id]| ==>
      base[id][i].link in tracked && tracked[base[id][i].link] == Slot(id, base[id][i].priority)
  }

  /** Every tracked link is held by the bucket its slot names. */
  ghost predicate TrackedHeld(base: Base, tracked: map<Link, Slot>) {
    forall l :: l in tracked ==> Holds(base, tracked[l].id, l)
  }

  /** `tracked` names the owner of every link the buckets hold, and nothing else. Since a
      bucket has one entry per priority, this makes every link owned by exactly one entry. */
  ghost predicate OwnersAgree(base: Base, tracked: map<Link, Slot>) {
    EntriesTracked(base, tracked) && TrackedHeld(base, tracked)
  }

  /** How many times a consistent index files `l` under `t`: once per time `l` declares `t`
      when `l` is a tracked application, whether or not it heads its bucket; never
      otherwise. */
  function Filed(tracked: map<Link, Slot>, l: Link, t: Tag): nat {
    if l in tracked && l.linkType == Application then multiset(l.categories)[t] else 0
  }

  /** The category index is exactly what the tracked links declare: each tracked link is
      filed as often as `Filed` says, and nothing else is filed at all. */
  ghost predicate IndexAgrees(cm: Index, tracked: map<Link, Slot>) {
    && NoEmptyBuckets(cm)
    && (forall t, l | l in tracked :: Occ(cm, t, l) == Filed(tracked, l, t))
    && (forall t, l | t in cm && l in cm[t] :: l in tracked)
  }

  /** `IndexAgrees` says, of every link whatsoever, how often it is filed. */
  lemma IndexExact(cm: Index, tracked: map<Link, Slot>)
    requires NoEmptyBuckets(cm)
    ensures IndexAgrees(cm, tracked) <==> forall t, l :: Occ(cm, t, l) == Filed(tracked, l, t)
  {
    if IndexAgrees(cm, tracked) {
      forall t, l
        ensures Occ(cm, t, l) == Filed(tracked, l, t)
      {
        assert Occ(cm, t, l) > 0 ==> l in Members(cm, t);
      }
    }
    if forall t, l :: Occ(cm, t, l) == Filed(tracked, l, t) {
      forall t, l | t in cm && l in cm[t]
        ensures l in tracked
      {
        assert Occ(cm, t, l) > 0;
      }
    }
  }

  /** A consistent index says of every link how often it is filed. */
  lemma IndexCounts(cm: Index, tracked: map<Link, Slot>)
    ensures IndexAgrees(cm, tracked) ==> forall t, l :: Occ(cm, t, l) == Filed(tracked, l, t)
  {
    if IndexAgrees(cm, tracked) {
      IndexExact(cm, tracked);
    }
  }

  /** An application link is filed under each category at least as often as it declares
      it, which is what unfiling it needs. */
  ghost predicate FiledUnderOwn(cm: Index, l: Link) {
    l.linkType == Application ==> forall t :: Occ(cm, t, l) >= multiset(l.categories)[t]
  }

  /** An owned application link is filed under each of its categories as often as it
      declares it. */
  lemma OwnedLinkIsFiled(db: Db, id: string, k: nat)
    requires Inv(db)
    requires k < |BucketOf(db.base, id)|
    ensures var l := BucketOf(db.base, id)[k].link;
      l.linkType == Application ==> forall t :: Occ(db.categories, t, l) == multiset(l.categories)[t]
  {
    var l := BucketOf(db.base, id)[k].link;
    assert l in db.tracked;
    IndexCounts(db.categories, db.tracked);
  }

  /** The links a consistent index files under `t` are tracked applications declaring `t`. */
  lemma FiledAreDeclared(cm: Index, tracked: map<Link, Slot>, t: Tag)
    ensures IndexAgrees(cm, tracked) ==>
              forall l | l in Members(cm, t) :: l in tracked && l.linkType == Application && t in l.categories
  {
    if IndexAgrees(cm, tracked) {
      forall l | l in Members(cm, t)
        ensures l in tracked && l.linkType == Application && t in l.categories
      {
        assert Occ(cm, t, l) == Filed(tracked, l, t);
      }
    }
  }

  ghost predicate Inv(db: Db) {
    && BucketsSorted(db.base)
    && OwnersAgree(db.base, db.tracked)
    && IndexAgrees(db.categories, db.tracked)
  }

  // ---------------------------------------------------------------- the steps

  /** The bucket without its `k`-th entry, stored back, or its id deleted once it is empty. */
  function Detach(base: Base, id: string, k: nat): Base
    requires k < |BucketOf(base, id)|
  {
    var b := RemoveAt(BucketOf(base, id), k);
    if b == [] then base - {id} else base[id := b]
  }

  /** The bucket (created when missing) with `e` inserted at `k`, stored back. */
  function Attach(base: Base, id: string, k: nat, e: Entry): Base
    requires k <= |BucketOf(base, id)|
  {
    base[id := InsertAt(BucketOf(base, id), k, e)]
  }

  /** An application link is filed under each category it declares; other links are not. */
  function Categorize(cm: Index, l: Link): Index {
    if l.linkType == Application then CatAddAll(cm, l.categories, l) else cm
  }

  /** An application link is unfiled under each category it declares. */
  function Uncategorize(cm: Index, l: Link): Index {
    if l.linkType == Application then CatRemoveAll(cm, l.categories, l) else cm
  }

  /** The removal protocol for the `k`-th entry of `id`'s bucket: the update function is
      told, the link leaves the category index, the entry leaves the bucket (and the bucket
      the map when it is empty), and the entry's link is released. */
  function DropEntry(db: Db, id: string, k: nat, cb: Option<Callback>): Db
    requires k < |BucketOf(db.base, id)|
  {
    var l := BucketOf(db.base, id)[k].link;
    Db(Detach(db.base, id, k), Uncategorize(db.categories, l), db.tracked - {l},
       db.events + Emit(cb, LinkRemoved, l))
  }

  /** The add protocol goes ahead: the file is to be shown and the bucket has no entry yet
      from the directory of priority `p`. */
  predicate Admissible(db: Db, id: string, p: int, shown: bool) {
    shown && !PriorityTaken(BucketOf(db.base, id), p)
  }

  /** The add protocol for a new link `l` from the directory of priority `p`: the update
      function is told, the entry goes before the first entry of a larger priority number,
      and an application link is filed under its categories. */
  function AdmitEntry(db: Db, id: string, p: int, l: Link, cb: Option<Callback>): Db {
    var k := FirstAtLeast(BucketOf(db.base, id), p);
    Db(Attach(db.base, id, k, Entry(p, l)), Categorize(db.categories, l), db.tracked[l := Slot(id, p)],
       db.events + Emit(cb, LinkAdded, l))
  }

  /** The add steps, with `added` the link made from the file when the protocol goes ahead. */
  function AddStep(db: Db, id: string, p: int, shown: bool, added: Option<Link>, cb: Option<Callback>): Db {
    if Admissible(db, id, p, shown) && added.Some? then AdmitEntry(db, id, p, added.value, cb) else db
  }

  /** The effect of one notification for a `.desktop` file. SELF_REMOVED changes nothing;
      REMOVED drops the entry read from the notified path, if any; MODIFIED drops that entry
      and, when the file still parses into a link to be shown, tracks the new link under
      the dropped entry's priority (with no duplicate check, as none can remain); ADDED runs
      the add steps under the notified directory's priority. */
  function Outcome(db: Db, r: Request, added: Option<Link>, cb: Option<Callback>): Db {
    var b := BucketOf(db.base, r.id);
    var k := FirstWithSource(b, r.fullPath);
    match r.kind
    case SelfRemoved => db
    case Removed => if k < |b| then DropEntry(db, r.id, k, cb) else db
    case Modified =>
      if k < |b| then
        var db1 := DropEntry(db, r.id, k, cb);
        if r.shown && added.Some? then AdmitEntry(db1, r.id, b[k].priority, added.value, cb) else db1
      else db
    case Added => AddStep(db, r.id, r.priority, r.shown, added, cb)
  }

  /** Whether a notification ends with a new link being tracked. */
  predicate AddsLink(db: Db, r: Request) {
    var b := BucketOf(db.base, r.id);
    match r.kind
    case SelfRemoved => false
    case Removed => false
    case Modified => FirstWithSource(b, r.fullPath) < |b| && r.shown
    case Added => Admissible(db, r.id, r.priority, r.shown)
  }

  // ---------------------------------------------------------------- preservation

  /** Taking an entry out keeps every bucket sorted and non-empty, and keeps every other
      link's owner. */
  lemma DetachKeepsOwners(base: Base, tracked: map<Link, Slot>, id: string, k: nat)
    requires BucketsSorted(base) && OwnersAgree(base, tracked)
    requires k < |BucketOf(base, id)|
    ensures BucketsSorted(Detach(base, id, k))
    ensures OwnersAgree(Detach(base, id, k), tracked - {base[id][k].link})
  {
    DetachKeepsSorted(base, id, k);
    DetachKeepsEntriesTracked(base, tracked, id, k);
    DetachKeepsTrackedHeld(base, tracked, id, k);
  }

  lemma DetachKeepsSorted(base: Base, id: string, k: nat)
    requires BucketsSorted(base)
    requires k < |BucketOf(base, id)|
    ensures BucketsSorted(Detach(base, id, k))
  {
    RemoveKeepsSorted(base[id], k);
  }

  lemma DetachKeepsEntriesTracked(base: Base, tracked: map<Link, Slot>, id: string, k: nat)
    requires BucketsSorted(base) && EntriesTracked(base, tracked)
    requires k < |BucketOf(base, id)|
    ensures EntriesTracked(Detach(base, id, k), tracked - {base[id][k].link})
  {
    var b := base[id];
    var l := b[k].link;
    var nb: Base := Detach(base, id, k);
    var tr := tracked - {l};
    RemoveKeepsSorted(b, k);
    assert tracked[l] == Slot(id, b[k].priority);
    forall id': string, i: int | id' in nb && 0 <= i < |nb[id']|
      ensures nb[id'][i].link in tr && tr[nb[id'][i].link] == Slot(id', nb[id'][i].priority)
    {
      if id' == id {
        var j := if i < k then i else i + 1;
        assert nb[id][i] == b[j];
        assert tracked[b[j].link] == Slot(id, b[j].priority);
        assert b[j].priority != b[k].priority;
      } else {
        assert nb[id'] == base[id'];
        assert tracked[base[id'][i].link] == Slot(id', base[id'][i].priority);
      }
    }
  }

  lemma DetachKeepsTrackedHeld(base: Base, tracked: map<Link, Slot>, id: string, k: nat)
    requires TrackedHeld(base, tracked)
    requires k < |BucketOf(base, id)|
    ensures TrackedHeld(Detach(base, id, k), tracked - {base[id][k].link})
  {
    var b := base[id];
    var l := b[k].link;
    var nb: Base := Detach(base, id, k);
    var tr := tracked - {l};
    forall l' | l' in tr
      ensures Holds(nb, tr[l'].id, l')
    {
      var id' := tracked[l'].id;
      assert Holds(base, id', l');
      var i :| 0 <= i < |base[id']| && base[id'][i].link == l';
      if id' == id {
        assert i != k;
        var j := if i < k then i else i - 1;
        assert |b| > 1;
        assert nb[id][j] == b[i];
      } else {
        assert nb[id'] == base[id'];
      }
    }
  }

  /** Inserting a new link at the scanned position keeps every bucket sorted and non-empty,
      and makes the bucket the new link's owner. */
  lemma AttachKeepsOwners(base: Base, tracked: map<Link, Slot>, id: string, p: int, l: Link)
    requires BucketsSorted(base) && OwnersAgree(base, tracked)
    requires l !in tracked
    requires !PriorityTaken(BucketOf(base, id), p)
    ensures var k := FirstAtLeast(BucketOf(base, id), p);
      && BucketsSorted(Attach(base, id, k, Entry(p, l)))
      && OwnersAgree(Attach(base, id, k, Entry(p, l)), tracked[l := Slot(id, p)])
  {
    var b := BucketOf(base, id);
    assert StrictlySorted(b);
    InsertKeepsSorted(b, Entry(p, l));
    AttachKeepsEntriesTracked(base, tracked, id, p, l);
    AttachKeepsTrackedHeld(base, tracked, id, p, l);
  }

  lemma AttachKeepsEntriesTracked(base: Base, tracked: map<Link, Slot>, id: string, p: int, l: Link)
    requires EntriesTracked(base, tracked)
    requires l !in tracked
    ensures var k := FirstAtLeast(BucketOf(base, id), p);
      EntriesTracked(Attach(base, id, k, Entry(p, l)), tracked[l := Slot(id, p)])
  {
    var b := BucketOf(base, id);
    var k := FirstAtLeast(b, p);
    var e := Entry(p, l);
    var nb: Base := Attach(base, id, k, e);
    var tr := tracked[l := Slot(id, p)];
    InsertAtIndex(b, k, e);
    forall id': string, i: int | id' in nb && 0 <= i < |nb[id']|
      ensures nb[id'][i].link in tr && tr[nb[id'][i].link] == Slot(id', nb[id'][i].priority)
    {
      if id' == id {
        if i < k {
          assert nb[id][i] == b[i];
          assert tracked[b[i].link] == Slot(id, b[i].priority);
        } else if i > k {
          assert nb[id][i] == b[i - 1];
          assert tracked[b[i - 1].link] == Slot(id, b[i - 1].priority);
        }
      } else {
        assert nb[id'] == base[id'];
        assert tracked[base[id'][i].link] == Slot(id', base[id'][i].priority);
      }
    }
  }

  lemma AttachKeepsTrackedHeld(base: Base, tracked: map<Link, Slot>, id: string, p: int, l: Link)
    requires TrackedHeld(base, tracked)
    ensures var k := FirstAtLeast(BucketOf(base, id), p);
      TrackedHeld(Attach(base, id, k, Entry(p, l)), tracked[l := Slot(id, p)])
  {
    var b := BucketOf(base, id);
    var k := FirstAtLeast(b, p);
    var e := Entry(p, l);
    var nb: Base := Attach(base, id, k, e);
    var tr := tracked[l := Slot(id, p)];
    InsertAtIndex(b, k, e);
    forall l' | l' in tr
      ensures Holds(nb, tr[l'].id, l')
    {
      if l' == l {
        assert nb[id][k].link == l;
      } else {
        var id' := tracked[l'].id;
        assert Holds(base, id', l');
        var i :| 0 <= i < |base[id']| && base[id'][i].link == l';
        if id' == id {
          var j := if i < k then i else i + 1;
          assert nb[id][j] == b[i];
        } else {
          assert nb[id'] == base[id'];
        }
      }
    }
  }

  /** Unfiling a tracked link and releasing it keeps the category index exact. */
  lemma UncategorizeAgrees(cm: Index, tracked: map<Link, Slot>, l: Link)
    requires IndexAgrees(cm, tracked)
    requires l in tracked
    ensures IndexAgrees(Uncategorize(cm, l), tracked - {l})
    ensures forall t :: Occ(Uncategorize(cm, l), t, l) == 0
  {
    IndexExact(cm, tracked);
    assert forall t :: Occ(cm, t, l) == Filed(tracked, l, t);
    UncategorizeOcc(cm, l);
    var nc := Uncategorize(cm, l);
    forall t, l'
      ensures Occ(nc, t, l') == Filed(tracked - {l}, l', t)
    {
      assert Occ(cm, t, l') == Filed(tracked, l', t);
    }
    IndexExact(nc, tracked - {l});
  }

  /** How unfiling changes the counts, when the link is filed under each of its categories. */
  lemma UncategorizeOcc(cm: Index, l: Link)
    requires NoEmptyBuckets(cm)
    requires l.linkType == Application ==> forall t :: Occ(cm, t, l) >= multiset(l.categories)[t]
    ensures NoEmptyBuckets(Uncategorize(cm, l))
    ensures forall t, l' :: Occ(Uncategorize(cm, l), t, l') ==
              Occ(cm, t, l') - (if l' == l && l.linkType == Application then multiset(l.categories)[t] else 0)
  {
    if l.linkType == Application {
      OccAfterRemoveAll(cm, l.categories, l);
    }
  }

  /** Filing a new link keeps the category index exact once the link is tracked. */
  lemma CategorizeAgrees(cm: Index, tracked: map<Link, Slot>, l: Link, s: Slot)
    requires IndexAgrees(cm, tracked)
    requires l !in tracked
    ensures IndexAgrees(Categorize(cm, l), tracked[l := s])
  {
    IndexExact(cm, tracked);
    if l.linkType == Application {
      OccAfterAddAll(cm, l.categories, l);
    }
    var nc := Categorize(cm, l);
    forall t, l'
      ensures Occ(nc, t, l') == Filed(tracked[l := s], l', t)
    {
      assert Occ(cm, t, l') == Filed(tracked, l', t);
    }
    IndexExact(nc, tracked[l := s]);
  }

  /** The removal protocol keeps the invariant and forgets the removed link: no bucket owns
      it and no category lists it any more. */
  lemma DropEntryKeepsInv(db: Db, id: string, k: nat, cb: Option<Callback>)
    requires Inv(db)
    requires k < |BucketOf(db.base, id)|
    ensures var l := BucketOf(db.base, id)[k].link;
      var r := DropEntry(db, id, k, cb);
      && Inv(r)
      && l !in r.tracked
      && (forall t :: Occ(r.categories, t, l) == 0)
  {
    var l := BucketOf(db.base, id)[k].link;
    DetachKeepsOwners(db.base, db.tracked, id, k);
    UncategorizeAgrees(db.categories, db.tracked, l);
  }

  /** The add protocol keeps the invariant and inserts the new entry where the priority
      scan stopped (`Buckets.InsertKeepsSorted` and `Buckets.InsertHeadsIff` say where
      that is). */
  lemma AdmitEntryKeepsInv(db: Db, id: string, p: int, l: Link, cb: Option<Callback>)
    requires Inv(db)
    requires l !in db.tracked
    requires !PriorityTaken(BucketOf(db.base, id), p)
    ensures var b := BucketOf(db.base, id);
      var r := AdmitEntry(db, id, p, l, cb);
      && Inv(r)
      && BucketOf(r.base, id) == InsertAt(b, FirstAtLeast(b, p), Entry(p, l))
  {
    AttachKeepsOwners(db.base, db.tracked, id, p, l);
    CategorizeAgrees(db.categories, db.tracked, l, Slot(id, p));
  }

  /** Every notification keeps the invariant, provided a link the add steps take on is not
      tracked yet (a freshly parsed link never is). */
  lemma OutcomeKeepsInv(db: Db, r: Request, added: Option<Link>, cb: Option<Callback>)
    requires Inv(db)
    requires added.Some? ==> added.value !in db.tracked
    ensures Inv(Outcome(db, r, added, cb))
  {
    var b := BucketOf(db.base, r.id);
    var k := FirstWithSource(b, r.fullPath);
    match r.kind
    case SelfRemoved =>
    case Removed =>
      if k < |b| {
        DropEntryKeepsInv(db, r.id, k, cb);
      }
    case Modified =>
      if k < |b| {
        DropEntryKeepsInv(db, r.id, k, cb);
        if r.shown && added.Some? {
          SwapKeepsInv(db, r.id, k, added.value, cb);
        }
      }
    case Added =>
      AddStepKeepsInv(db, r.id, r.priority, r.shown, added, cb);
  }

  /** The MODIFIED case of `OutcomeKeepsInv` that tracks a new link. */
  lemma SwapKeepsInv(db: Db, id: string, k: nat, l: Link, cb: Option<Callback>)
    requires Inv(db)
    requires k < |BucketOf(db.base, id)|
    requires l !in db.tracked
    ensures Inv(AdmitEntry(DropEntry(db, id, k, cb), id, BucketOf(db.base, id)[k].priority, l, cb))
  {
    DropEntryKeepsInv(db, id, k, cb);
    DropFreesPriority(db, id, k, cb);
    AdmitEntryKeepsInv(DropEntry(db, id, k, cb), id, BucketOf(db.base, id)[k].priority, l, cb);
  }

  /** The ADDED case of `OutcomeKeepsInv`. */
  lemma AddStepKeepsInv(db: Db, id: string, p: int, shown: bool, added: Option<Link>, cb: Option<Callback>)
    requires Inv(db)
    requires added.Some? ==> added.value !in db.tracked
    ensures Inv(AddStep(db, id, p, shown, added, cb))
  {
    if Admissible(db, id, p, shown) && added.Some? {
      AdmitEntryKeepsInv(db, id, p, added.value, cb);
    }
  }

  /** Once an entry is dropped, its bucket has no entry of its priority left. */
  lemma DropFreesPriority(db: Db, id: string, k: nat, cb: Option<Callback>)
    requires BucketsSorted(db.base)
    requires k < |BucketOf(db.base, id)|
    ensures !PriorityTaken(BucketOf(DropEntry(db, id, k, cb).base, id), BucketOf(db.base, id)[k].priority)
  {
    var b := BucketOf(db.base, id);
    assert StrictlySorted(b);
    RemoveKeepsSorted(b, k);
    var nb := RemoveAt(b, k);
    assert BucketOf(DropEntry(db, id, k, cb).base, id) == nb;
    PriorityTakenIff(nb, b[k].priority);
    forall j | 0 <= j < |nb|
      ensures nb[j].priority != b[k].priority
    {
      if j < k {
        assert nb[j] == b[j];
      } else {
        assert nb[j] == b[j + 1];
      }
    }
  }

  /** Taking an entry out of a sorted bucket and inserting one of the same priority puts
      the new entry where the old one was. */
  lemma ReinsertInPlace(b: seq<Entry>, k: nat, e: Entry)
    requires StrictlySorted(b)
    requires k < |b| && e.priority == b[k].priority
    ensures FirstAtLeast(RemoveAt(b, k), e.priority) == k
    ensures InsertAt(RemoveAt(b, k), k, e) == b[k := e]
  {
    var nb := RemoveAt(b, k);
    RemoveKeepsSorted(b, k);
    if k < |nb| {
      assert nb[k] == b[k + 1];
    }
    FirstAtLeastUnique(nb, e.priority, k);
    assert InsertAt(nb, k, e) == b[..k] + [e] + b[k + 1..];
  }

  /** MODIFIED for a tracked file that still yields a link to be shown swaps the link in
      place: the bucket keeps its directories and order, and only the modified file's
      entry holds the new link; the update function hears of the removal first. */
  lemma ModifiedSwapsInPlace(db: Db, r: Request, l: Link, cb: Option<Callback>)
    requires Inv(db)
    requires r.kind == Modified && r.shown
    requires FirstWithSource(BucketOf(db.base, r.id), r.fullPath) < |BucketOf(db.base, r.id)|
    ensures var b := BucketOf(db.base, r.id);
      var k := FirstWithSource(b, r.fullPath);
      var res := Outcome(db, r, Some(l), cb);
      && BucketOf(res.base, r.id) == b[k := Entry(b[k].priority, l)]
      && res.events == db.events + Emit(cb, LinkRemoved, b[k].link) + Emit(cb, LinkAdded, l)
  {
    var b := BucketOf(db.base, r.id);
    var k := FirstWithSource(b, r.fullPath);
    DropThenAdmit(db, r.id, k, l, cb);
  }

  /** The two steps of `ModifiedSwapsInPlace`, on the part of the invariant they need. */
  lemma DropThenAdmit(db: Db, id: string, k: nat, l: Link, cb: Option<Callback>)
    requires BucketsSorted(db.base)
    requires k < |BucketOf(db.base, id)|
    ensures var b := BucketOf(db.base, id);
      var res := AdmitEntry(DropEntry(db, id, k, cb), id, b[k].priority, l, cb);
      && BucketOf(res.base, id) == b[k := Entry(b[k].priority, l)]
      && res.events == db.events + Emit(cb, LinkRemoved, b[k].link) + Emit(cb, LinkAdded, l)
  {
    var b := BucketOf(db.base, id);
    assert StrictlySorted(b);
    ReinsertInPlace(b, k, Entry(b[k].priority, l));
    var db1 := DropEntry(db, id, k, cb);
    assert BucketOf(db1.base, id) == RemoveAt(b, k);
  }

  /** A repeated ADDED notification is a no-op: once the first has been handled, the
      bucket holds an entry of that priority (or the file is still not to be shown), so
      the second tracks nothing, calls nobody and changes nothing. */
  lemma AddedTwiceIsIdempotent(db: Db, r: Request, first: Option<Link>, second: Option<Link>,
                               cb: Option<Callback>)
    requires Inv(db)
    requires r.kind == Added
    requires first.Some? <==> AddsLink(db, r)
    requires first.Some? ==> first.value !in db.tracked
    ensures Outcome(Outcome(db, r, first, cb), r, second, cb) == Outcome(db, r, first, cb)
  {
    if Admissible(db, r.id, r.priority, r.shown) && first.Some? {
      var b := BucketOf(db.base, r.id);
      AdmitEntryKeepsInv(db, r.id, r.priority, first.value, cb);
      assert StrictlySorted(b);
      InsertKeepsSorted(b, Entry(r.priority, first.value));
    }
  }

  /** The path scan on a bucket that gained one entry from `path`, where no entry came from
      `path` before, stops on the new entry. */
  lemma PathScanFindsInserted(b: seq<Entry>, k: nat, e: Entry, path: string)
    requires k <= |b|
    requires FirstWithSource(b, path) == |b|
    requires e.link.sourceFile == path
    ensures FirstWithSource(InsertAt(b, k, e), path) == k
  {
    InsertAtIndex(b, k, e);
    FirstWithSourceUnique(InsertAt(b, k, e), path, k);
  }

  /** An ADDED notification that tracks a new link, followed by a REMOVED notification for
      the same file, gives back the buckets, the category index and the owners it started
      from; the update function hears of the link twice, added and then removed. */
  lemma AddedThenRemovedRestores(db: Db, id: string, path: string, p: int, l: Link, cb: Option<Callback>)
    requires Inv(db)
    requires Admissible(db, id, p, true)
    requires l !in db.tracked && l.sourceFile == path
    requires FirstWithSource(BucketOf(db.base, id), path) == |BucketOf(db.base, id)|
    ensures var db1 := Outcome(db, Request(Added, id, path, p, true), Some(l), cb);
      var db2 := Outcome(db1, Request(Removed, id, path, p, true), None, cb);
      && db2.base == db.base
      && db2.categories == db.categories
      && db2.tracked == db.tracked
      && db2.events == db.events + Emit(cb, LinkAdded, l) + Emit(cb, LinkRemoved, l)
  {
    AdmitThenDrop(db, id, p, l, cb);
  }

  /** The two steps of `AddedThenRemovedRestores`, on the parts of the invariant they need. */
  lemma AdmitThenDrop(db: Db, id: string, p: int, l: Link, cb: Option<Callback>)
    requires BucketsSorted(db.base) && NoEmptyBuckets(db.categories)
    requires l !in db.tracked
    requires FirstWithSource(BucketOf(db.base, id), l.sourceFile) == |BucketOf(db.base, id)|
    ensures var db1 := AdmitEntry(db, id, p, l, cb);
      var b1 := BucketOf(db1.base, id);
      var k := FirstWithSource(b1, l.sourceFile);
      && k < |b1|
      && DropEntry(db1, id, k, cb) == db.(events := db.events + Emit(cb, LinkAdded, l) + Emit(cb, LinkRemoved, l))
  {
    var b := BucketOf(db.base, id);
    var k := FirstAtLeast(b, p);
    var e := Entry(p, l);
    var db1 := AdmitEntry(db, id, p, l, cb);
    assert BucketOf(db1.base, id) == InsertAt(b, k, e);
    PathScanFindsInserted(b, k, e, l.sourceFile);
    InsertAtIndex(b, k, e);
    DetachUndoesAttach(db.base, id, k, e);
    if l.linkType == Application {
      RemoveAllUndoesAddAll(db.categories, l.categories, l);
    }
    assert db1.tracked - {l} == db.tracked;
  }

  /** Taking out the entry just inserted gives back the map of buckets. */
  lemma DetachUndoesAttach(base: Base, id: string, k: nat, e: Entry)
    requires BucketsSorted(base)
    requires k <= |BucketOf(base, id)|
    ensures Detach(Attach(base, id, k, e), id, k) == base
  {
    var b := BucketOf(base, id);
    assert RemoveAt(InsertAt(b, k, e), k) == b;
  }

  /** ADDED changes nothing and calls nobody when the bucket already holds an entry from
      the notified directory, or when the file does not yield a link to be shown. */
  lemma AddedSkips(db: Db, r: Request, added: Option<Link>, cb: Option<Callback>)
    requires Inv(db)
    requires r.kind == Added
    requires !r.shown || exists i :: 0 <= i < |BucketOf(db.base, r.id)| && BucketOf(db.base, r.id)[i].priority == r.priority
    ensures Outcome(db, r, added, cb) == db
    ensures !AddsLink(db, r)
  {
    var b := BucketOf(db.base, r.id);
    assert StrictlySorted(b);
    PriorityTakenIff(b, r.priority);
  }

  /** REMOVED takes out exactly the entry read from the notified path: nothing happens when
      the bucket has none; otherwise the update function hears of that link first, the
      other entries keep their order, the id leaves the map with its last entry, the link
      is no longer tracked or filed, and every other id keeps its bucket. */
  lemma RemovedDropsThatEntry(db: Db, r: Request, added: Option<Link>, cb: Option<Callback>)
    requires Inv(db)
    requires r.kind == Removed
    ensures var b := BucketOf(db.base, r.id);
      var res := Outcome(db, r, added, cb);
      && ((forall j :: 0 <= j < |b| ==> b[j].link.sourceFile != r.fullPath) ==> res == db)
      && (forall id :: id != r.id ==> BucketOf(res.base, id) == BucketOf(db.base, id))
      && (forall j :: 0 <= j < |b| && b[j].link.sourceFile == r.fullPath ==>
            var k := FirstWithSource(b, r.fullPath);
            && k <= j
            && BucketOf(res.base, r.id) == RemoveAt(b, k)
            && (r.id in res.base <==> |b| > 1)
            && res.events == db.events + Emit(cb, LinkRemoved, b[k].link)
            && b[k].link !in res.tracked
            && (forall t :: Occ(res.categories, t, b[k].link) == 0))
  {
    var b := BucketOf(db.base, r.id);
    var k := FirstWithSource(b, r.fullPath);
    RemovedShape(db, r, added, cb);
    if k < |b| {
      DropEntryKeepsInv(db, r.id, k, cb);
    }
  }

  /** The parts of `RemovedDropsThatEntry` that hold whatever the state. */
  lemma RemovedShape(db: Db, r: Request, added: Option<Link>, cb: Option<Callback>)
    requires r.kind == Removed
    ensures var b := BucketOf(db.base, r.id);
      var k := FirstWithSource(b, r.fullPath);
      var res := Outcome(db, r, added, cb);
      && (k == |b| ==> res == db)
      && (forall id :: id != r.id ==> BucketOf(res.base, id) == BucketOf(db.base, id))
      && (k < |b| ==>
            && res == DropEntry(db, r.id, k, cb)
            && BucketOf(res.base, r.id) == RemoveAt(b, k)
            && (r.id in res.base <==> |b| > 1)
            && res.events == db.events + Emit(cb, LinkRemoved, b[k].link)
            && b[k].link !in res.tracked)
  {
    var b := BucketOf(db.base, r.id);
    var k := FirstWithSource(b, r.fullPath);
    if k < |b| {
      var res := DropEntry(db, r.id, k, cb);
      assert BucketOf(res.base, r.id) == RemoveAt(b, k);
    }
  }
}
