/** The directory priority table built by the constructor: each data directory `foo`, in
    search order, contributes `foo/applications` with the next priority number, and the
    link base watches that directory. A lower number means the directory comes earlier
    and its links take precedence. */
module PriorityTable {

  /** `g_build_filename(dir, "applications", NULL)`, for a directory without a trailing
      separator. */
  function AppDir(dir: string): (path: string)
    ensures |path| == |dir| + 13 && path[..|dir|] == dir
  {
    dir + "/applications"
  }

  /** The table (`path_to_priority`), the next priority number to hand out, and the
      directories a watch was added for, in order. */
  datatype TableBuild = TableBuild(table: map<string, int>, next: int, watched: seq<string>)

  /** The table after the constructor's loop has seen `dirs`. The loop asks the table
      whether it already holds the data directory itself, while it stores the directory's
      `applications` subdirectory: the skip therefore fires only for a data directory that
      is the `applications` directory of an earlier one, and a repeated data directory is
      stored again with a new number, replacing the old one. */
  function BuildTable(dirs: seq<string>): TableBuild
    decreases |dirs|
  {
    if dirs == [] then TableBuild(map[], 0, [])
    else
      var t := BuildTable(dirs[..|dirs| - 1]);
      var d := dirs[|dirs| - 1];
      if d in t.table then t
      else TableBuild(t.table[AppDir(d) := t.next], t.next + 1, t.watched + [AppDir(d)])
  }

  /** Every number handed out belongs to exactly one watch: the numbers run 0, 1, 2, ...
      along the watched directories, every stored path maps to the latest watch on that
      path, and exactly the watched paths are stored. */
  ghost predicate WellFormed(t: TableBuild) {
    && t.next == |t.watched|
    && (forall path :: path in t.table ==> 0 <= t.table[path] < t.next && t.watched[t.table[path]] == path)
    && (forall i :: 0 <= i < |t.watched| ==> t.watched[i] in t.table && i <= t.table[t.watched[i]])
    && (forall i, j :: 0 <= i < j < |t.watched| && t.watched[i] == t.watched[j] ==> i < t.table[t.watched[i]])
  }

  lemma {:induction false} BuildTableWellFormed(dirs: seq<string>)
    ensures WellFormed(BuildTable(dirs))
    decreases |dirs|
  {
    if dirs != [] {
      var init := dirs[..|dirs| - 1];
      BuildTableWellFormed(init);
      var t := BuildTable(init);
      var d := dirs[|dirs| - 1];
      if d !in t.table {
        var r := BuildTable(dirs);
        var a := AppDir(d);
        assert r.watched == t.watched + [a];
        forall i, j | 0 <= i < j < |r.watched| && r.watched[i] == r.watched[j]
          ensures i < r.table[r.watched[i]]
        {
          if j == |t.watched| {
            assert r.watched[i] == a;
          } else {
            assert t.watched[i] == t.watched[j];
          }
        }
      }
    }
  }

  /** Distinct directories have distinct `applications` directories. */
  lemma AppDirInjective(a: string, b: string)
    requires a != b
    ensures AppDir(a) != AppDir(b)
  {
    if |a| == |b| {
      assert AppDir(a)[..|a|] == a && AppDir(b)[..|b|] == b;
    }
  }

  /** No data directory repeats, and none is the `applications` directory of an earlier
      one. */
  ghost predicate Unrelated(dirs: seq<string>) {
    forall i, j :: 0 <= i < j < |dirs| ==> dirs[i] != dirs[j] && dirs[j] != AppDir(dirs[i])
  }

  /** With data directories that are distinct and none of which is another's
      `applications` directory, directory `i` gets priority `i` and every directory is
      watched once, in order. */
  lemma DistinctDirsGetTheirIndex(dirs: seq<string>)
    requires Unrelated(dirs)
    ensures BuildTable(dirs).next == |dirs|
    ensures BuildTable(dirs).watched == seq(|dirs|, i requires 0 <= i < |dirs| => AppDir(dirs[i]))
    ensures forall i :: 0 <= i < |dirs| ==>
              AppDir(dirs[i]) in BuildTable(dirs).table && BuildTable(dirs).table[AppDir(dirs[i])] == i
    ensures forall path :: path in BuildTable(dirs).table ==> exists i :: 0 <= i < |dirs| && path == AppDir(dirs[i])
  {
    DistinctDirsWatched(dirs);
    DistinctDirsTable(dirs);
    TableHoldsAppDirs(dirs);
  }

  /** The counter and the watches of `DistinctDirsGetTheirIndex`. */
  lemma {:induction false} DistinctDirsWatched(dirs: seq<string>)
    requires Unrelated(dirs)
    ensures BuildTable(dirs).next == |dirs|
    ensures BuildTable(dirs).watched == seq(|dirs|, i requires 0 <= i < |dirs| => AppDir(dirs[i]))
    decreases |dirs|
  {
    if dirs != [] {
      var init := dirs[..|dirs| - 1];
      var d := dirs[|dirs| - 1];
      assert forall i :: 0 <= i < |init| ==> init[i] == dirs[i];
      DistinctDirsWatched(init);
      TableHoldsAppDirs(init);
      assert d !in BuildTable(init).table;
    }
  }

  /** The numbers of `DistinctDirsGetTheirIndex`. */
  lemma {:induction false} DistinctDirsTable(dirs: seq<string>)
    requires Unrelated(dirs)
    ensures forall i :: 0 <= i < |dirs| ==>
              AppDir(dirs[i]) in BuildTable(dirs).table && BuildTable(dirs).table[AppDir(dirs[i])] == i
    decreases |dirs|
  {
    if dirs != [] {
      var init := dirs[..|dirs| - 1];
      var d := dirs[|dirs| - 1];
      assert forall i :: 0 <= i < |init| ==> init[i] == dirs[i];
      DistinctDirsWatched(init);
      DistinctDirsTable(init);
      TableHoldsAppDirs(init);
      var t := BuildTable(init);
      assert d !in t.table;
      forall i | 0 <= i < |init|
        ensures AppDir(init[i]) != AppDir(d)
      {
        AppDirInjective(init[i], d);
      }
      assert BuildTable(dirs).table == t.table[AppDir(d) := |init|];
    }
  }

  /** Whatever the directories, every path in the table is the `applications` directory
      of one of them. */
  lemma {:induction false} TableHoldsAppDirs(dirs: seq<string>)
    ensures forall path :: path in BuildTable(dirs).table ==> exists i :: 0 <= i < |dirs| && path == AppDir(dirs[i])
    decreases |dirs|
  {
    if dirs != [] {
      var init := dirs[..|dirs| - 1];
      var d := dirs[|dirs| - 1];
      TableHoldsAppDirs(init);
      forall path | path in BuildTable(dirs).table
        ensures exists i :: 0 <= i < |dirs| && path == AppDir(dirs[i])
      {
        if path !in BuildTable(init).table {
          assert path == AppDir(dirs[|dirs| - 1]);
        } else {
          var i :| 0 <= i < |init| && path == AppDir(init[i]);
          assert path == AppDir(dirs[i]);
        }
      }
    }
  }

  /** One more directory for the constructor's loop. */
  lemma BuildTableSnoc(dirs: seq<string>, d: string)
    ensures var t := BuildTable(dirs);
      BuildTable(dirs + [d]) ==
        if d in t.table then t
        else TableBuild(t.table[AppDir(d) := t.next], t.next + 1, t.watched + [AppDir(d)])
  {
    assert (dirs + [d])[..|dirs|] == dirs;
  }

  /** Later directories only add: the watches made so far stay, in order, and a path
      once stored stays stored. */
  lemma {:induction false} BuildTableGrows(xs: seq<string>, ys: seq<string>)
    ensures BuildTable(xs).watched <= BuildTable(xs + ys).watched
    ensures forall path :: path in BuildTable(xs).table ==> path in BuildTable(xs + ys).table
    decreases |ys|
  {
    if ys == [] {
      assert xs + ys == xs;
    } else {
      var init, y := ys[..|ys| - 1], ys[|ys| - 1];
      assert xs + ys == (xs + init) + [y];
      BuildTableGrows(xs, init);
      BuildTableSnoc(xs + init, y);
    }
  }

  /** A data directory that comes after one that was itself taken in, and that is that
      one's `applications` directory, is skipped: it gets no number and no watch. The
      condition matters: if the earlier directory was itself skipped, its `applications`
      directory need not be in the table, and the later one is then taken in. */
  lemma AppDirOfEarlierIsSkipped(pre: seq<string>, e: string, mid: seq<string>)
    requires e !in BuildTable(pre).table
    ensures BuildTable(pre + [e] + mid + [AppDir(e)]) == BuildTable(pre + [e] + mid)
  {
    BuildTableSnoc(pre, e);
    assert AppDir(e) in BuildTable(pre + [e]).table;
    BuildTableGrows(pre + [e], mid);
    BuildTableSnoc(pre + [e] + mid, AppDir(e));
  }

  /** A data directory listed twice is not collapsed when neither occurrence is skipped:
      its `applications` directory is watched twice, the table keeps only the second
      number, and the first number is left unused. */
  lemma RepeatedDirIsNotCollapsed(pre: seq<string>, d: string, mid: seq<string>)
    requires d !in BuildTable(pre).table
    requires d !in BuildTable(pre + [d] + mid).table
    ensures var first := |BuildTable(pre).watched|;
      var t := BuildTable(pre + [d] + mid + [d]);
      && first < |t.watched| - 1
      && t.watched[first] == AppDir(d)
      && t.watched[|t.watched| - 1] == AppDir(d)
      && AppDir(d) in t.table && t.table[AppDir(d)] == |t.watched| - 1
      && (forall path :: path in t.table ==> t.table[path] != first)
  {
    var t0 := BuildTable(pre);
    var first := |t0.watched|;
    BuildTableSnoc(pre, d);
    var t1 := BuildTable(pre + [d]);
    assert t1.watched == t0.watched + [AppDir(d)];
    BuildTableGrows(pre + [d], mid);
    var t2 := BuildTable(pre + [d] + mid);
    assert t2.watched[first] == t1.watched[first];
    BuildTableSnoc(pre + [d] + mid, d);
    var t := BuildTable(pre + [d] + mid + [d]);
    BuildTableWellFormed(pre + [d] + mid);
    BuildTableWellFormed(pre + [d] + mid + [d]);
    assert t.watched == t2.watched + [AppDir(d)];
    assert t.watched[first] == AppDir(d);
  }

  /** An instance of `RepeatedDirIsNotCollapsed`: the same directory twice in a row. */
  lemma RepeatedDirExample()
    ensures BuildTable(["/usr/share", "/usr/share"]) ==
      TableBuild(map["/usr/share/applications" := 1], 2, ["/usr/share/applications", "/usr/share/applications"])
  {
    var a := "/usr/share/applications";
    assert "/usr/share" + "/applications" == a;
    assert AppDir("/usr/share") == a;
    assert ["/usr/share", "/usr/share"][..1] == ["/usr/share"];
    assert ["/usr/share"][..0] == [];
    assert BuildTable(["/usr/share"]) == TableBuild(map[a := 0], 1, [a]);
    assert "/usr/share" != a;
    assert map[a := 0][a := 1] == map[a := 1];
  }

  /** An instance of `AppDirOfEarlierIsSkipped`: a directory and its `applications`
      directory. */
  lemma AppDirOfEarlierExample()
    ensures BuildTable(["/usr/share", "/usr/share/applications"]) ==
      TableBuild(map["/usr/share/applications" := 0], 1, ["/usr/share/applications"])
  {
    var a := "/usr/share/applications";
    assert "/usr/share" + "/applications" == a;
    assert AppDir("/usr/share") == a;
    assert ["/usr/share", a][..1] == ["/usr/share"];
    assert ["/usr/share"][..0] == [];
    assert BuildTable(["/usr/share"]) == TableBuild(map[a := 0], 1, [a]);
  }
}
