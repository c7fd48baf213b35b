/** `ObtLinkBase`: the registry of desktop-entry links found under the applications
    directories of the data directories, indexed by desktop-file id and by category, kept up
    to date from filesystem notifications, and reporting each link it starts or stops
    tracking to an installed update function. */
module LinkBase {
  import opened Links
  import opened Buckets
  import opened CategoryIndex
  import opened RegistryState
  import opened Locale
  import opened PriorityTable

  class LinkBase {
    /** The reference count; the structure is zero-filled on creation. */
    var refCount: int

    /** The active desktop environments, as a bit set. */
    const environments: nat
    const language: Option<string>
    const country: Option<string>
    const modifier: Option<string>

    /** `obt_link_id_from_ddfile`: the desktop-file id of a path below an applications
        directory. */
    const idFromPath: string -> string
    /** `obt_link_display`: whether a parsed link is shown in the given environments. */
    const display: (LinkRecord, nat) -> bool

    /** The applications directories a watch was added for, in order. */
    var watched: seq<string>
    /** Desktop-file id -> the entries found for it, by increasing priority number. */
    var base: Base
    /** Applications directory -> its priority number. */
    var pathToPriority: map<string, int>
    /** Category -> the links filed under it, newest first. */
    var categories: Index
    /** The update function and its user data, when one is installed. */
    var callback: Option<Callback>
    /** The calls made to the update function, in order. */
    var events: seq<Event>

    /** Which entry owns each tracked link (the list node holding it, in the source). */
    ghost var Tracked: map<Link, Slot>

    ghost function State(): Db
      reads this
    {
      Db(base, categories, Tracked, events)
    }

    ghost predicate Valid()
      reads this
    {
      Inv(State())
    }

    /** `obt_linkbase_new`: the locale is split into its parts, and every data directory
        gets its applications directory registered with the next priority number and
        watched. No link is tracked until a notification arrives. */
    constructor (dataDirs: seq<string>, locale: string, environments: nat,
                 idFromPath: string -> string, display: (LinkRecord, nat) -> bool)
      ensures Valid()
      ensures refCount == 0
      ensures this.environments == environments
      ensures LocaleParts(language, country, modifier) == SplitSpec(locale)
      ensures pathToPriority == BuildTable(dataDirs).table
      ensures watched == BuildTable(dataDirs).watched
      ensures base == map[] && categories == map[] && Tracked == map[]
      ensures callback == None && events == []
      ensures this.idFromPath == idFromPath && this.display == display
    {
      refCount := 0;
      this.environments := environments;
      this.idFromPath := idFromPath;
      this.display := display;
      base := map[];
      categories := map[];
      Tracked := map[];
      callback := None;
      events := [];
      var parts := SplitLocale(locale);
      language := parts.language;
      country := parts.country;
      modifier := parts.modifier;
      var table: map<string, int> := map[];
      var dirs: seq<string> := [];
      var priority := 0;
      var i := 0;
      while i < |dataDirs|
        invariant 0 <= i <= |dataDirs|
        invariant BuildTable(dataDirs[..i]) == TableBuild(table, priority, dirs)
      {
        assert dataDirs[..i + 1][..i] == dataDirs[..i];
        var d := dataDirs[i];
        if d !in table {
          var basePath := AppDir(d);
          table := table[basePath := priority];
          dirs := dirs + [basePath];
          priority := priority + 1;
        }
        i := i + 1;
      }
      assert dataDirs[..i] == dataDirs;
      pathToPriority := table;
      watched := dirs;
    }

    /** `obt_linkbase_ref`. */
    method Ref()
      modifies this`refCount
      ensures refCount == old(refCount) + 1
    {
      refCount := refCount + 1;
    }

    /** `obt_linkbase_unref`: the count drops by one, and the registry is torn down when it
        falls below one. */
    method Unref() returns (freed: bool)
      modifies this`refCount
      ensures refCount == old(refCount) - 1
      ensures freed <==> refCount < 1
    {
      refCount := refCount - 1;
      freed := refCount < 1;
    }

    /** `obt_linkbase_set_update_func`: the new function and data replace the old ones. */
    method SetUpdateFunc(cb: Option<Callback>)
      modifies this`callback
      ensures callback == cb
    {
      callback := cb;
    }

    /** `obt_linkbase_category`: the links filed under `t`, or nothing. On a consistent
        registry these are exactly the tracked application links declaring `t`, each as
        often as it declares it. */
    function Category(t: Tag): (links: seq<Link>)
      reads this
      ensures t !in categories ==> links == []
      ensures Valid() ==> forall l | l in links :: l in Tracked && l.linkType == Application && t in l.categories
      ensures Valid() ==> forall l | l in Tracked :: multiset(links)[l] == Filed(Tracked, l, t)
    {
      IndexCounts(categories, Tracked);
      FiledAreDeclared(categories, Tracked, t);
      Members(categories, t)
    }

    /** `category_add`. */
    method CategoryAdd(t: Tag, l: Link)
      modifies this`categories
      ensures categories == CatAdd(old(categories), t, l)
    {
      var links := if t in categories then categories[t] else [];
      categories := categories[t := [l] + links];
    }

    /** `category_remove`: walks the tag's bucket to the link, unlinks it, and drops the
        bucket once it is empty. The source dereferences both lookups unchecked, so the
        link must be filed under the tag. */
    method CategoryRemove(t: Tag, l: Link)
      requires t in categories && l in categories[t]
      modifies this`categories
      ensures categories == CatRemove(old(categories), t, l)
    {
      var links := categories[t];
      var i := 0;
      while links[i] != l
        invariant 0 <= i <= IndexOf(links, l) < |links|
        decreases |links| - i
      {
        i := i + 1;
      }
      assert i == IndexOf(links, l);
      var rest := links[..i] + links[i + 1..];
      assert rest == RemoveFirst(Members(categories, t), l);
      if rest == [] {
        categories := categories - {t};
      } else {
        categories := categories[t := rest];
      }
    }

    /** The `category_remove` loop of the removal steps: an application link leaves the
        bucket of each category it declares. */
    method UnfileLink(link: Link)
      requires forall t :: Occ(categories, t, link) >= multiset(link.categories)[t]
      modifies this`categories
      ensures categories == CatRemoveAll(old(categories), link.categories, link)
    {
      ghost var c0 := categories;
      var cats := link.categories;
      var i := 0;
      while i < |cats|
        invariant 0 <= i <= |cats|
        invariant categories == CatRemoveAll(c0, cats[..i], link)
      {
        NextTagStillFiled(c0, cats, i, link);
        CatRemoveAllStep(c0, cats, i, link);
        CategoryRemove(cats[i], link);
        i := i + 1;
      }
      assert cats[..i] == cats;
    }

    /** The `category_add` loop of the add steps: an application link joins the bucket of
        each category it declares. */
    method FileLink(link: Link)
      modifies this`categories
      ensures categories == CatAddAll(old(categories), link.categories, link)
    {
      ghost var c0 := categories;
      var cats := link.categories;
      var i := 0;
      while i < |cats|
        invariant 0 <= i <= |cats|
        invariant categories == CatAddAll(c0, cats[..i], link)
      {
        CatAddAllStep(c0, cats, i, link);
        CategoryAdd(cats[i], link);
        i := i + 1;
      }
      assert cats[..i] == cats;
    }

    /** The removal steps shared by REMOVED and MODIFIED for the `k`-th entry of `id`'s
        bucket. */
    method RemoveEntry(id: string, k: nat)
      requires k < |BucketOf(base, id)|
      requires FiledUnderOwn(categories, BucketOf(base, id)[k].link)
      modifies this`base, this`categories, this`events, this`Tracked
      ensures State() == DropEntry(old(State()), id, k, callback)
    {
      ghost var db := State();
      var list := base[id];
      var link := list[k].link;
      if callback.Some? {
        events := events + [Event(callback.value, LinkRemoved, link)];
      }
      if link.linkType == Application {
        UnfileLink(link);
      }
      list := RemoveAt(list, k);
      Tracked := Tracked - {link};
      if list != [] {
        base := base[id := list];
      } else {
        base := base - {id};
      }
      assert State() == DropEntry(db, id, k, callback);
    }

    /** The add steps: the file's parse, when there is one and it is to be shown, becomes a
        new link that the update function is told of, that goes into `id`'s bucket at
        `k`, and that an application files under its categories. */
    method AddEntry(id: string, k: nat, p: int, parsed: Option<LinkRecord>) returns (ghost added: Option<Link>)
      requires !PriorityTaken(BucketOf(base, id), p) && k == FirstAtLeast(BucketOf(base, id), p)
      modifies this`base, this`categories, this`events, this`Tracked
      ensures added.Some? <==> parsed.Some? && display(parsed.value, environments)
      ensures added.Some? ==> fresh(added.value) && added.value.From(parsed.value)
      ensures State() == AddStep(old(State()), id, p, added.Some?, added, callback)
    {
      added := None;
      if parsed.Some? {
        var link := new Link(parsed.value);
        if display(parsed.value, environments) {
          TrackLink(id, k, p, link);
          added := Some(link);
        }
      }
    }

    /** The add steps once the link to be shown exists: the update function hears of it,
        it goes into `id`'s bucket at `k`, and an application is filed under its
        categories. */
    method TrackLink(id: string, k: nat, p: int, link: Link)
      requires k == FirstAtLeast(BucketOf(base, id), p)
      modifies this`base, this`categories, this`events, this`Tracked
      ensures State() == AdmitEntry(old(State()), id, p, link, callback)
    {
      ghost var db := State();
      if callback.Some? {
        events := events + [Event(callback.value, LinkAdded, link)];
      }
      assert events == db.events + Emit(callback, LinkAdded, link);
      base := base[id := InsertAt(BucketOf(base, id), k, Entry(p, link))];
      Tracked := Tracked[link := Slot(id, p)];
      if link.linkType == Application {
        FileLink(link);
      }
      assert categories == Categorize(db.categories, link);
      assert State() == AdmitEntry(db, id, p, link, callback);
    }

    /** MODIFIED for the `k`-th entry of `id`'s bucket: the removal steps, then the add
        steps under the removed entry's priority, at the position the priority scan finds. */
    method ReplaceEntry(id: string, k: nat, parsed: Option<LinkRecord>) returns (ghost added: Option<Link>)
      requires BucketsSorted(base)
      requires k < |BucketOf(base, id)|
      requires FiledUnderOwn(categories, BucketOf(base, id)[k].link)
      modifies this`base, this`categories, this`events, this`Tracked
      ensures added.Some? <==> parsed.Some? && display(parsed.value, environments)
      ensures added.Some? ==> fresh(added.value) && added.value.From(parsed.value)
      ensures var db1 := DropEntry(old(State()), id, k, callback);
        State() == if added.Some? then AdmitEntry(db1, id, old(BucketOf(base, id)[k].priority), added.value, callback)
                   else db1
    {
      ghost var db := State();
      var priority := base[id][k].priority;
      DropFreesPriority(db, id, k, callback);
      RemoveEntry(id, k);
      ghost var db1 := State();
      assert db1 == DropEntry(db, id, k, callback);
      var pos := FindBaseEntryPriority(BucketOf(base, id), priority);
      added := AddEntry(id, pos, priority, parsed);
      assert State() == AddStep(db1, id, priority, added.Some?, added, callback);
    }

    /** The request `update` acts on for a notification, once the file passed the
        `.desktop` test. */
    function RequestFor(basePath: string, subPath: string, fullPath: string, kind: NotifyType,
                        parsed: Option<LinkRecord>): (r: Request)
      reads this
    {
      Request(kind, idFromPath(subPath), fullPath,
              if basePath in pathToPriority then pathToPriority[basePath] else 0,
              parsed.Some? && display(parsed.value, environments))
    }

    /** `update`, the watch's handler. Files not ending in `.desktop` are ignored. `parsed`
        is what parsing `fullPath` yields at this moment (`None` when it fails); it is
        used only when the handler goes on to the add steps. An ADDED notification comes
        from a watched directory, whose priority the handler looks up unchecked. */
    method Update(basePath: string, subPath: string, fullPath: string, kind: NotifyType,
                  parsed: Option<LinkRecord>) returns (ghost added: Option<Link>)
      requires Valid()
      requires IsDesktopFile(subPath) && kind == Added ==> basePath in pathToPriority
      modifies this`base, this`categories, this`events, this`Tracked
      ensures Valid()
      ensures !IsDesktopFile(subPath) ==> State() == old(State()) && added == None
      ensures IsDesktopFile(subPath) ==>
                State() == Outcome(old(State()), RequestFor(basePath, subPath, fullPath, kind, parsed), added, callback)
      ensures added.Some? <==>
                IsDesktopFile(subPath) && AddsLink(old(State()), RequestFor(basePath, subPath, fullPath, kind, parsed))
      ensures added.Some? ==> fresh(added.value) && added.value.From(parsed.value)
    {
      added := None;
      if !IsDesktopFile(subPath) {
        return;
      }
      ghost var db := State();
      ghost var r := RequestFor(basePath, subPath, fullPath, kind, parsed);
      forall k | 0 <= k < |BucketOf(db.base, r.id)|
        ensures FiledUnderOwn(db.categories, BucketOf(db.base, r.id)[k].link)
      {
        OwnedLinkIsFiled(db, r.id, k);
      }
      added := UpdateDesktopFile(basePath, subPath, fullPath, kind, parsed);
      OutcomeKeepsInv(db, r, added, callback);
    }

    /** The body of `update` for a `.desktop` file: the entry read from `fullPath` is
        looked up in the id's bucket by path for REMOVED and MODIFIED, and the notified
        directory's priority is looked up for ADDED. */
    method UpdateDesktopFile(basePath: string, subPath: string, fullPath: string, kind: NotifyType,
                             parsed: Option<LinkRecord>) returns (ghost added: Option<Link>)
      requires BucketsSorted(base)
      requires forall k :: 0 <= k < |BucketOf(base, idFromPath(subPath))| ==>
                 FiledUnderOwn(categories, BucketOf(base, idFromPath(subPath))[k].link)
      requires kind == Added ==> basePath in pathToPriority
      modifies this`base, this`categories, this`events, this`Tracked
      ensures State() == Outcome(old(State()), RequestFor(basePath, subPath, fullPath, kind, parsed), added, callback)
      ensures added.Some? <==> AddsLink(old(State()), RequestFor(basePath, subPath, fullPath, kind, parsed))
      ensures added.Some? ==> fresh(added.value) && added.value.From(parsed.value)
    {
      added := None;
      var id := idFromPath(subPath);
      var list := BucketOf(base, id);
      match kind {
        case SelfRemoved =>
        case Removed =>
          var k := FindBaseEntryPath(list, fullPath);
          if k < |list| {
            RemoveEntry(id, k);
          }
        case Modified =>
          var k := FindBaseEntryPath(list, fullPath);
          if k < |list| {
            added := ReplaceEntry(id, k, parsed);
          }
        case Added =>
          var priority := pathToPriority[basePath];
          var pos := FindBaseEntryPriority(list, priority);
          var add := !(pos < |list| && list[pos].priority == priority);
          if add {
            added := AddEntry(id, pos, priority, parsed);
          }
      }
    }
  }
}
