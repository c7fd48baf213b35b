/** The category index: for each category tag, the links filed under it. The index does
    not own the links (the identifier buckets do); a link is filed once per category it
    declares, newest first. */
module CategoryIndex {
  import opened Links

  type Index = map<Tag, seq<Link>>

  /** The links filed under `t`; nothing when the tag has no bucket. */
  function Members(cm: Index, t: Tag): seq<Link> {
    if t in cm then cm[t] else []
  }

  /** How many times `l` is filed under `t`. */
  function Occ(cm: Index, t: Tag, l: Link): nat {
    multiset(Members(cm, t))[l]
  }

  /** A tag's bucket exists only while it holds a link. */
  ghost predicate NoEmptyBuckets(cm: Index) {
    forall t :: t in cm ==> cm[t] != []
  }

  /** Index of the first occurrence of `l` in `s`, or `|s|`. */
  function IndexOf(s: seq<Link>, l: Link): (i: nat)
    ensures i <= |s|
    ensures forall j :: 0 <= j < i ==> s[j] != l
    ensures i < |s| ==> s[i] == l
  {
    if s == [] || s[0] == l then 0 else 1 + IndexOf(s[1..], l)
  }

  /** `s` with its first occurrence of `l` deleted. */
  function RemoveFirst(s: seq<Link>, l: Link): seq<Link> {
    var i := IndexOf(s, l);
    if i < |s| then s[..i] + s[i + 1..] else s
  }

  /** `category_add`: the tag's bucket is created when missing, and `l` is prepended. */
  function CatAdd(cm: Index, t: Tag, l: Link): Index {
    cm[t := [l] + Members(cm, t)]
  }

  /** `category_remove`: one occurrence of `l` leaves the tag's bucket, and the bucket
      leaves the index when it becomes empty. */
  function CatRemove(cm: Index, t: Tag, l: Link): Index {
    var s := RemoveFirst(Members(cm, t), l);
    if s == [] then cm - {t} else cm[t := s]
  }

  /** `category_add` called for each tag in turn. */
  function CatAddAll(cm: Index, tags: seq<Tag>, l: Link): Index
    decreases |tags|
  {
    if tags == [] then cm
    else CatAdd(CatAddAll(cm, tags[..|tags| - 1], l), tags[|tags| - 1], l)
  }

  /** `category_remove` called for each tag in turn. */
  function CatRemoveAll(cm: Index, tags: seq<Tag>, l: Link): Index
    decreases |tags|
  {
    if tags == [] then cm
    else CatRemove(CatRemoveAll(cm, tags[..|tags| - 1], l), tags[|tags| - 1], l)
  }

  /** Deleting the first occurrence of a member takes exactly one copy of it away. */
  lemma RemoveFirstCount(s: seq<Link>, l: Link)
    requires l in s
    ensures multiset(RemoveFirst(s, l)) == multiset(s) - multiset{l}
  {
    var i := IndexOf(s, l);
    assert s == s[..i] + [s[i]] + s[i + 1..];
  }

  /** `category_add` files `l` under `t` once more and touches nothing else. */
  lemma OccAfterAdd(cm: Index, t: Tag, l: Link)
    ensures forall t', l' :: Occ(CatAdd(cm, t, l), t', l') ==
              Occ(cm, t', l') + (if t' == t && l' == l then 1 else 0)
    ensures NoEmptyBuckets(cm) ==> NoEmptyBuckets(CatAdd(cm, t, l))
  {
    forall t', l'
      ensures Occ(CatAdd(cm, t, l), t', l') == Occ(cm, t', l') + (if t' == t && l' == l then 1 else 0)
    {
      if t' == t {
        assert Members(CatAdd(cm, t, l), t) == [l] + Members(cm, t);
      }
    }
  }

  /** `category_remove` on a link that is filed under `t` files it there once less and
      touches nothing else; it never leaves an empty bucket behind. */
  lemma OccAfterRemove(cm: Index, t: Tag, l: Link)
    requires Occ(cm, t, l) > 0
    ensures forall t', l' :: Occ(CatRemove(cm, t, l), t', l') ==
              Occ(cm, t', l') - (if t' == t && l' == l then 1 else 0)
    ensures NoEmptyBuckets(cm) ==> NoEmptyBuckets(CatRemove(cm, t, l))
  {
    var s := Members(cm, t);
    assert l in s;
    RemoveFirstCount(s, l);
    forall t', l'
      ensures Occ(CatRemove(cm, t, l), t', l') == Occ(cm, t', l') - (if t' == t && l' == l then 1 else 0)
    {
      MembersAfterRemove(cm, t, l, t');
    }
  }

  /** The buckets `category_remove` leaves behind. */
  lemma MembersAfterRemove(cm: Index, t: Tag, l: Link, t': Tag)
    ensures Members(CatRemove(cm, t, l), t') ==
              if t' == t then RemoveFirst(Members(cm, t), l) else Members(cm, t')
  {
  }

  /** Adding a link under each of its tags files it once per occurrence of each tag. */
  lemma {:induction false} OccAfterAddAll(cm: Index, tags: seq<Tag>, l: Link)
    ensures forall t', l' :: Occ(CatAddAll(cm, tags, l), t', l') ==
              Occ(cm, t', l') + (if l' == l then multiset(tags)[t'] else 0)
    ensures NoEmptyBuckets(cm) ==> NoEmptyBuckets(CatAddAll(cm, tags, l))
    decreases |tags|
  {
    if tags != [] {
      var init, x := tags[..|tags| - 1], tags[|tags| - 1];
      assert tags == init + [x];
      OccAfterAddAll(cm, init, l);
      OccAfterAdd(CatAddAll(cm, init, l), x, l);
    }
  }

  /** Removing a link under each of its tags, when it is filed at least that often,
      takes away exactly those copies. */
  lemma {:induction false} OccAfterRemoveAll(cm: Index, tags: seq<Tag>, l: Link)
    requires forall t :: Occ(cm, t, l) >= multiset(tags)[t]
    ensures forall t', l' :: Occ(CatRemoveAll(cm, tags, l), t', l') ==
              Occ(cm, t', l') - (if l' == l then multiset(tags)[t'] else 0)
    ensures NoEmptyBuckets(cm) ==> NoEmptyBuckets(CatRemoveAll(cm, tags, l))
    decreases |tags|
  {
    if tags != [] {
      var init, x := tags[..|tags| - 1], tags[|tags| - 1];
      assert tags == init + [x];
      assert multiset(tags) == multiset(init) + multiset{x};
      OccAfterRemoveAll(cm, init, l);
      var mid := CatRemoveAll(cm, init, l);
      assert Occ(mid, x, l) == Occ(cm, x, l) - multiset(init)[x];
      OccAfterRemove(mid, x, l);
    }
  }

  /** `category_remove` undoes `category_add` exactly. */
  lemma RemoveUndoesAdd(cm: Index, t: Tag, l: Link)
    requires NoEmptyBuckets(cm)
    ensures CatRemove(CatAdd(cm, t, l), t, l) == cm
  {
    assert RemoveFirst([l] + Members(cm, t), l) == Members(cm, t);
  }

  /** `n` copies of `l`. */
  function Rep(l: Link, n: nat): (s: seq<Link>)
    ensures |s| == n
  {
    if n == 0 then [] else [l] + Rep(l, n - 1)
  }

  /** An index without empty buckets is determined by what it files under each tag. */
  lemma IndexByMembers(a: Index, b: Index)
    requires NoEmptyBuckets(a) && NoEmptyBuckets(b)
    requires forall t :: Members(a, t) == Members(b, t)
    ensures a == b
  {
    forall t
      ensures t in a <==> t in b
    {
      assert Members(a, t) == Members(b, t);
    }
    assert a.Keys == b.Keys;
    forall t | t in a
      ensures a[t] == b[t]
    {
      assert Members(a, t) == Members(b, t);
    }
  }

  /** Filing `l` under each tag in turn puts one copy in front of a tag's bucket per
      occurrence of the tag. */
  lemma {:induction false} AddAllMembers(cm: Index, tags: seq<Tag>, l: Link, t: Tag)
    ensures Members(CatAddAll(cm, tags, l), t) == Rep(l, multiset(tags)[t]) + Members(cm, t)
    decreases |tags|
  {
    if tags != [] {
      var init: seq<Tag>, x := tags[..|tags| - 1], tags[|tags| - 1];
      CountLastTag(tags, t);
      AddAllMembers(cm, init, l, t);
      AddStepMembers(CatAddAll(cm, init, l), cm, multiset(init)[t], multiset(tags)[t], x, l, t);
    }
  }

  /** One `category_add` under `x`, seen from tag `t`: one more copy in front when `t` is
      `x`, and nothing changes otherwise. */
  lemma AddStepMembers(mid: Index, cm: Index, m: nat, m': nat, x: Tag, l: Link, t: Tag)
    requires Members(mid, t) == Rep(l, m) + Members(cm, t)
    requires m' == if t == x then m + 1 else m
    ensures Members(CatAdd(mid, x, l), t) == Rep(l, m') + Members(cm, t)
  {
    var after := CatAdd(mid, x, l);
    if t == x {
      assert Members(after, t) == [l] + Members(mid, t);
      assert Rep(l, m + 1) == [l] + Rep(l, m);
      assert [l] + (Rep(l, m) + Members(cm, t)) == ([l] + Rep(l, m)) + Members(cm, t);
    } else {
      assert Members(after, t) == Members(mid, t);
    }
  }

  /** Removing `l` from a sequence that starts with it drops that first copy. */
  lemma RemoveFirstOfRep(l: Link, n: nat, s: seq<Link>)
    requires n >= 1
    ensures RemoveFirst(Rep(l, n) + s, l) == Rep(l, n - 1) + s
  {
    var r := Rep(l, n) + s;
    assert r == [l] + (Rep(l, n - 1) + s);
  }

  /** How often `t` occurs in `tags`, counted up to the last element. */
  lemma CountLastTag(tags: seq<Tag>, t: Tag)
    requires tags != []
    ensures multiset(tags)[t] ==
              multiset(tags[..|tags| - 1])[t] + if tags[|tags| - 1] == t then 1 else 0
  {
    assert tags == tags[..|tags| - 1] + [tags[|tags| - 1]];
  }

  /** One `category_remove` under `y`, seen from tag `t`: the first of the `m` copies in
      front goes when `t` is `y`, and nothing changes otherwise. */
  lemma RemoveStepMembers(mid: Index, cm: Index, m: nat, m': nat, y: Tag, l: Link, t: Tag)
    requires Members(mid, t) == Rep(l, m) + Members(cm, t)
    requires m' == if t == y then m - 1 else m
    ensures Members(CatRemove(mid, y, l), t) == Rep(l, m') + Members(cm, t)
  {
    MembersAfterRemove(mid, y, l, t);
    if t == y {
      RemoveFirstOfRep(l, m, Members(cm, t));
    }
  }

  /** Unfiling `l` under each tag in turn, from a bucket that starts with enough copies of
      it, takes one copy off the front per occurrence of the tag. */
  lemma {:induction false} RemoveAllMembers(x: Index, cm: Index, n: nat, tags: seq<Tag>, l: Link, t: Tag)
    requires multiset(tags)[t] <= n
    requires Members(x, t) == Rep(l, n) + Members(cm, t)
    ensures Members(CatRemoveAll(x, tags, l), t) == Rep(l, n - multiset(tags)[t]) + Members(cm, t)
    decreases |tags|
  {
    if tags != [] {
      var init: seq<Tag>, y := tags[..|tags| - 1], tags[|tags| - 1];
      CountLastTag(tags, t);
      var before: nat := multiset(init)[t];
      var after: nat := n - multiset(tags)[t];
      RemoveAllMembers(x, cm, n, init, l, t);
      var mid := CatRemoveAll(x, init, l);
      RemoveStepMembers(mid, cm, n - before, after, y, l, t);
    }
  }

  /** Filing a link under its tags and then unfiling it under the same tags gives back
      the index it started from, also when a tag repeats: every copy filed goes in front,
      and each removal takes the first copy. */
  lemma RemoveAllUndoesAddAll(cm: Index, tags: seq<Tag>, l: Link)
    requires NoEmptyBuckets(cm)
    ensures CatRemoveAll(CatAddAll(cm, tags, l), tags, l) == cm
  {
    var x := CatAddAll(cm, tags, l);
    OccAfterAddAll(cm, tags, l);
    OccAfterRemoveAll(x, tags, l);
    var r := CatRemoveAll(x, tags, l);
    forall t
      ensures Members(r, t) == Members(cm, t)
    {
      AddAllMembers(cm, tags, l, t);
      RemoveAllMembers(x, cm, multiset(tags)[t], tags, l, t);
      assert Rep(l, 0) == [];
    }
    IndexByMembers(r, cm);
  }

  /** While unfiling a link tag by tag, the link is still filed under the next tag, so
      `category_remove` finds both the bucket and the link in it. */
  lemma {:induction false} NextTagStillFiled(cm: Index, tags: seq<Tag>, i: nat, l: Link)
    requires forall t :: Occ(cm, t, l) >= multiset(tags)[t]
    requires i < |tags|
    ensures tags[i] in CatRemoveAll(cm, tags[..i], l)
    ensures l in CatRemoveAll(cm, tags[..i], l)[tags[i]]
  {
    var x := tags[i];
    assert tags == tags[..i] + [x] + tags[i + 1..];
    assert multiset(tags) == multiset(tags[..i]) + multiset{x} + multiset(tags[i + 1..]);
    OccAfterRemoveAll(cm, tags[..i], l);
    assert Occ(CatRemoveAll(cm, tags[..i], l), x, l) > 0;
  }

  /** One more step of the removal fold. */
  lemma CatRemoveAllStep(cm: Index, tags: seq<Tag>, i: nat, l: Link)
    requires i < |tags|
    ensures CatRemoveAll(cm, tags[..i + 1], l) == CatRemove(CatRemoveAll(cm, tags[..i], l), tags[i], l)
  {
    assert tags[..i + 1][..i] == tags[..i];
  }

  /** One more step of the add fold. */
  lemma CatAddAllStep(cm: Index, tags: seq<Tag>, i: nat, l: Link)
    requires i < |tags|
    ensures CatAddAll(cm, tags[..i + 1], l) == CatAdd(CatAddAll(cm, tags[..i], l), tags[i], l)
  {
    assert tags[..i + 1][..i] == tags[..i];
  }
}
