/**
 * The records of libnih's file watching — NihFileWatch, NihDirWatch and the
 * calls made into their users — and the functions over the watch list that
 * the operations in FileWatching are specified with.
 */
module Watches {
  import opened Wrappers
  import opened FileSystem
  import opened InotifyEvent

  /** DIR_EVENTS: what a tree watch asks the kernel for on every directory. */
  const DIR_EVENTS: bv32 := IN_CREATE | IN_DELETE | IN_MODIFY | IN_MOVE | IN_MOVE_SELF

  /**
   * NihDirWatch: the arguments nih_dir_add_watch was given.  A NULL handler
   * is a false flag; a NULL filter is the filter that rejects nothing.
   */
  class DirWatch {
    const path: Path
    const subdirs: bool
    const filter: Path -> bool
    const onCreate: bool
    const onModify: bool
    const onDelete: bool
    const data: nat

    constructor (path: Path, subdirs: bool, filter: Path -> bool, onCreate: bool, onModify: bool, onDelete: bool, data: nat)
      ensures this.path == path && this.subdirs == subdirs && this.filter == filter
      ensures this.onCreate == onCreate && this.onModify == onModify && this.onDelete == onDelete
      ensures this.data == data
    {
      this.path := path;
      this.subdirs := subdirs;
      this.filter := filter;
      this.onCreate := onCreate;
      this.onModify := onModify;
      this.onDelete := onDelete;
      this.data := data;
    }
  }

  /**
   * Whom a file watch reports to: a caller's watcher function with its data
   * pointer, or nih_dir_watcher on behalf of a tree watch, which then also
   * owns the file watch (it is its nih_alloc parent).
   */
  datatype Watcher = User(data: nat) | Tree(tree: DirWatch)

  /** NihFileWatch: only the watch descriptor changes after creation. */
  class FileWatch {
    var wd: int
    const path: Path
    const events: bv32
    const watcher: Watcher

    constructor (wd: int, path: Path, events: bv32, watcher: Watcher)
      ensures this.wd == wd && this.path == path && this.events == events && this.watcher == watcher
    {
      this.wd := wd;
      this.path := path;
      this.events := events;
      this.watcher := watcher;
    }
  }

  /**
   * The calls the watch code makes into its users, in order: a user
   * watcher, a tree's create, modify and delete handlers (a NULL path for
   * the tree itself going away), a walk visitor, and a failed nih_assert,
   * which ends the process.
   */
  datatype Callback =
    | Notified(data: nat, watch: FileWatch, events: bv32, cookie: nat, name: Option<string>)
    | Created(tree: DirWatch, path: Path)
    | Modified(tree: DirWatch, path: Path)
    | Deleted(tree: DirWatch, target: Option<Path>)
    | Visited(path: Path)
    | AssertionFailed

  /** The call to an optional handler: none when the handler is NULL. */
  function Call(present: bool, c: Callback): seq<Callback> {
    if present then [c] else []
  }

  /* The watch list. */

  /** No watch is linked into the list twice. */
  predicate Distinct(ws: seq<FileWatch>) {
    ws == [] || (ws[0] !in ws[1..] && Distinct(ws[1..]))
  }

  /** Linking a watch not yet listed keeps the list free of repeats. */
  lemma {:induction false} DistinctAppend(ws: seq<FileWatch>, w: FileWatch)
    requires Distinct(ws) && w !in ws
    ensures Distinct(ws + [w])
  {
    if ws != [] {
      assert (ws + [w])[0] == ws[0] && (ws + [w])[1..] == ws[1..] + [w];
      assert w !in ws[1..];
      DistinctAppend(ws[1..], w);
    } else {
      assert [] + [w] == [w] && [w][1..] == [];
    }
  }

  /** In a list without repeats, the watch at i is not among those before it, and the rest has no repeats. */
  lemma {:induction false} DistinctSplit(ws: seq<FileWatch>, i: nat)
    requires Distinct(ws) && i < |ws|
    ensures ws[i] !in ws[..i] && Distinct(ws[i..])
  {
    if i > 0 {
      DistinctSplit(ws[1..], i - 1);
      assert ws[1..][i - 1] == ws[i] && ws[1..][i - 1..] == ws[i..];
      assert ws[..i] == [ws[0]] + ws[1..][..i - 1];
    } else {
      assert ws[0..] == ws;
    }
  }

  /** In a list without repeats, the watch at i is at no other place. */
  lemma DistinctAt(ws: seq<FileWatch>, i: nat)
    requires Distinct(ws) && i < |ws|
    ensures forall j :: 0 <= j < |ws| && j != i ==> ws[j] != ws[i]
  {
    DistinctSplit(ws, i);
    assert ws[i..][0] == ws[i];
    assert forall j :: 0 <= j < i ==> ws[j] == ws[..i][j];
    assert forall j :: i < j < |ws| ==> ws[j] == ws[i..][1..][j - i - 1];
  }

  /** The watches of ws that keep accepts, in list order. */
  function Filter(ws: seq<FileWatch>, keep: FileWatch -> bool): (r: seq<FileWatch>)
    ensures forall x :: x in r ==> x in ws && keep(x)
    ensures forall x :: x in ws && keep(x) ==> x in r
    ensures |r| <= |ws|
    ensures Distinct(ws) ==> Distinct(r)
  {
    if ws == [] then []
    else
      var rest := Filter(ws[1..], keep);
      assert forall x :: x in ws[1..] ==> x in ws;
      if keep(ws[0]) then
        assert ([ws[0]] + rest)[0] == ws[0] && ([ws[0]] + rest)[1..] == rest;
        [ws[0]] + rest
      else rest
  }

  lemma {:induction false} FilterAppend(a: seq<FileWatch>, b: seq<FileWatch>, keep: FileWatch -> bool)
    ensures Filter(a + b, keep) == Filter(a, keep) + Filter(b, keep)
  {
    if a != [] {
      var ab := a + b;
      assert ab != [] && ab[0] == a[0] && ab[1..] == a[1..] + b;
      FilterAppend(a[1..], b, keep);
      var head := if keep(a[0]) then [a[0]] else [];
      assert Filter(ab, keep) == head + Filter(a[1..] + b, keep);
      assert Filter(a, keep) == head + Filter(a[1..], keep);
      assert head + (Filter(a[1..], keep) + Filter(b, keep)) == (head + Filter(a[1..], keep)) + Filter(b, keep);
    } else {
      assert a + b == b;
    }
  }

  /** Filtering a list none of whose watches keep rejects leaves it as it is. */
  lemma {:induction false} FilterAll(ws: seq<FileWatch>, keep: FileWatch -> bool)
    requires forall x :: x in ws ==> keep(x)
    ensures Filter(ws, keep) == ws
  {
    if ws != [] {
      assert forall x :: x in ws[1..] ==> x in ws;
      FilterAll(ws[1..], keep);
    }
  }

  /** The list after nih_list_remove of w. */
  function Without(ws: seq<FileWatch>, w: FileWatch): seq<FileWatch> {
    Filter(ws, x => x != w)
  }

  /** The watches of the list that tree t owns. */
  function Owned(ws: seq<FileWatch>, t: DirWatch): seq<FileWatch> {
    Filter(ws, (x: FileWatch) => x.watcher == Tree(t))
  }

  /** The watches of the list that tree t does not own. */
  function Unowned(ws: seq<FileWatch>, t: DirWatch): seq<FileWatch> {
    Filter(ws, (x: FileWatch) => x.watcher != Tree(t))
  }

  /**
   * Unlinking a watch removes exactly that watch, once and for all: a second
   * unlink changes nothing, and every other watch keeps its place in order.
   */
  lemma {:induction false} WithoutIdempotent(ws: seq<FileWatch>, w: FileWatch)
    ensures Without(Without(ws, w), w) == Without(ws, w)
    ensures w !in Without(ws, w)
    ensures w !in ws ==> Without(ws, w) == ws
  {
    FilterAll(Without(ws, w), x => x != w);
    if w !in ws {
      FilterAll(ws, x => x != w);
    }
  }

  /**
   * Unlinking the first watch of a list without repeats, behind watches
   * other than it, leaves those and the rest of the list in place.
   */
  lemma WithoutFront(pre: seq<FileWatch>, ws: seq<FileWatch>)
    requires ws != [] && Distinct(ws) && ws[0] !in pre
    ensures Without(pre + ws, ws[0]) == pre + ws[1..]
  {
    var w := ws[0];
    FilterAppend(pre, ws, x => x != w);
    FilterAll(pre, x => x != w);
    assert forall j :: 0 <= j < |ws[1..]| ==> ws[1..][j] == ws[j + 1] != w;
    FilterAll(ws[1..], x => x != w);
  }

  /** The watch descriptors of the list, in list order. */
  function Wds(ws: seq<FileWatch>): (ds: seq<int>)
    reads ws
    ensures |ds| == |ws|
  {
    if ws == [] then [] else [ws[0].wd] + Wds(ws[1..])
  }

  /** Each descriptor Wds lists is that of the watch at the same place. */
  lemma {:induction false} WdsAt(ws: seq<FileWatch>)
    ensures forall i :: 0 <= i < |ws| ==> Wds(ws)[i] == ws[i].wd
  {
    if ws != [] {
      WdsAt(ws[1..]);
      assert forall i :: 1 <= i < |ws| ==> Wds(ws)[i] == Wds(ws[1..])[i - 1] && ws[i] == ws[1..][i - 1];
    }
  }

  lemma {:induction false} WdsAppend(a: seq<FileWatch>, b: seq<FileWatch>)
    ensures Wds(a + b) == Wds(a) + Wds(b)
  {
    if a == [] {
      assert a + b == b;
    } else {
      assert (a + b)[0] == a[0] && (a + b)[1..] == a[1..] + b;
      WdsAppend(a[1..], b);
    }
  }

  /** The descriptors ds (those of ws, in order) of the watches tree t owns. */
  function OwnedWds(ws: seq<FileWatch>, ds: seq<int>, t: DirWatch): (r: seq<int>)
    requires |ws| == |ds|
    ensures |r| == |Owned(ws, t)|
    ensures forall d :: d in r ==> d in ds
  {
    if ws == [] then []
    else (if ws[0].watcher == Tree(t) then [ds[0]] else []) + OwnedWds(ws[1..], ds[1..], t)
  }

  lemma {:induction false} OwnedWdsAppend(a: seq<FileWatch>, da: seq<int>, b: seq<FileWatch>, db: seq<int>, t: DirWatch)
    requires |a| == |da| && |b| == |db|
    ensures OwnedWds(a + b, da + db, t) == OwnedWds(a, da, t) + OwnedWds(b, db, t)
  {
    if a != [] {
      assert (a + b)[0] == a[0] && (a + b)[1..] == a[1..] + b;
      assert (da + db)[0] == da[0] && (da + db)[1..] == da[1..] + db;
      OwnedWdsAppend(a[1..], da[1..], b, db, t);
    } else {
      assert a + b == b && da + db == db;
    }
  }

  /**
   * The index of the first descriptor in ds equal to wd: the watch
   * nih_file_reader hands a record to.
   */
  function FirstMatch(ds: seq<int>, wd: int): (m: Option<nat>)
    ensures m.Some? ==> m.value < |ds| && ds[m.value] == wd
  {
    if ds == [] then None
    else if ds[0] == wd then Some(0)
    else
      match FirstMatch(ds[1..], wd)
      case None => None
      case Some(i) => Some(i + 1)
  }

  /** FirstMatch finds the earliest match, and finds none only when there is none. */
  lemma {:induction false} FirstMatchFirst(ds: seq<int>, wd: int)
    ensures FirstMatch(ds, wd).Some? ==> forall j :: 0 <= j < FirstMatch(ds, wd).value ==> ds[j] != wd
    ensures FirstMatch(ds, wd).None? <==> forall j :: 0 <= j < |ds| ==> ds[j] != wd
  {
    if ds != [] && ds[0] != wd {
      FirstMatchFirst(ds[1..], wd);
      assert forall j :: 1 <= j < |ds| ==> ds[j] == ds[1..][j - 1];
    }
  }

  /** The first index holding wd is the one FirstMatch finds. */
  lemma {:induction false} FirstMatchAt(ds: seq<int>, wd: int, i: nat)
    requires i < |ds| && ds[i] == wd && forall j :: 0 <= j < i ==> ds[j] != wd
    ensures FirstMatch(ds, wd) == Some(i)
  {
    if i > 0 {
      FirstMatchAt(ds[1..], wd, i - 1);
    }
  }

  /** Every watch on the list reports to a caller's watcher, none to a tree. */
  predicate AllUser(ws: seq<FileWatch>) {
    forall w :: w in ws ==> w.watcher.User?
  }

  /**
   * The watcher call one record causes when every listed watch belongs to a
   * caller (ds are the descriptors of ws): the watcher of the first watch
   * holding the record's descriptor, if any.
   */
  function Notify(ws: seq<FileWatch>, ds: seq<int>, e: Event): (r: seq<Callback>)
    requires |ws| == |ds| && AllUser(ws)
    ensures |r| <= 1
  {
    match FirstMatch(ds, Wd(e))
    case None => []
    case Some(i) =>
      assert ws[i] in ws;
      [Notified(ws[i].watcher.data, ws[i], MaskBits(e), Cookie(e), NameArg(e))]
  }

  /**
   * The call Notify makes goes to the first watch whose descriptor is the
   * record's, with the record's mask and cookie and the name only when the
   * record has one; there is no call when no descriptor matches.
   */
  lemma NotifySpec(ws: seq<FileWatch>, ds: seq<int>, e: Event)
    requires |ws| == |ds| && AllUser(ws)
    ensures Notify(ws, ds, e) == [] <==> forall j :: 0 <= j < |ds| ==> ds[j] != Wd(e)
    ensures Notify(ws, ds, e) != [] ==>
      exists i :: 0 <= i < |ws| && ds[i] == Wd(e) && (forall j :: 0 <= j < i ==> ds[j] != Wd(e))
        && Notify(ws, ds, e) == [Notified(ws[i].watcher.data, ws[i], MaskBits(e), Cookie(e), NameArg(e))]
  {
    FirstMatchFirst(ds, Wd(e));
  }

  /** The watcher calls a sequence of records causes, record by record in buffer order. */
  function Notifications(ws: seq<FileWatch>, ds: seq<int>, es: seq<Event>): (r: seq<Callback>)
    requires |ws| == |ds| && AllUser(ws)
    ensures |r| <= |es|
  {
    if es == [] then [] else Notify(ws, ds, es[0]) + Notifications(ws, ds, es[1..])
  }

  lemma {:induction false} NotificationsAppend(ws: seq<FileWatch>, ds: seq<int>, es: seq<Event>, e: Event)
    requires |ws| == |ds| && AllUser(ws)
    ensures Notifications(ws, ds, es + [e]) == Notifications(ws, ds, es) + Notify(ws, ds, e)
  {
    if es != [] {
      assert (es + [e])[1..] == es[1..] + [e];
      NotificationsAppend(ws, ds, es[1..], e);
    }
  }

  /**
   * A record whose descriptor is negative — IN_Q_OVERFLOW comes with wd -1 —
   * reaches no watcher, since every listed watch holds a real descriptor.
   */
  lemma NegativeWdIgnored(ws: seq<FileWatch>, ds: seq<int>, e: Event)
    requires |ws| == |ds| && AllUser(ws)
    requires forall d :: d in ds ==> d >= 0
    requires Wd(e) < 0
    ensures Notify(ws, ds, e) == []
  {
    assert forall j :: 0 <= j < |ds| ==> ds[j] in ds;
    NotifySpec(ws, ds, e);
  }

  /* Trees. */

  /** The paths among ps the kernel grants a watch on, in order. */
  function Watchable(host: Host, ps: seq<Path>): (r: seq<Path>)
    ensures |r| <= |ps|
  {
    if ps == [] then []
    else (if Granted(host, ps[0]) then [ps[0]] else []) + Watchable(host, ps[1..])
  }

  /** Watchable keeps exactly the paths the kernel grants a watch on. */
  lemma {:induction false} WatchableSpec(host: Host, ps: seq<Path>)
    ensures forall p :: p in Watchable(host, ps) <==> p in ps && Granted(host, p)
  {
    if ps != [] {
      WatchableSpec(host, ps[1..]);
      assert ps == [ps[0]] + ps[1..];
    }
  }

  lemma {:induction false} WatchableAppend(host: Host, a: seq<Path>, b: seq<Path>)
    ensures Watchable(host, a + b) == Watchable(host, a) + Watchable(host, b)
  {
    if a != [] {
      assert (a + b)[0] == a[0] && (a + b)[1..] == a[1..] + b;
      WatchableAppend(host, a[1..], b);
    } else {
      assert a + b == b;
    }
  }

  /** w is the watch nih_dir_add_file_watch registers for tree t on path p. */
  predicate TreeWatchOn(w: FileWatch, p: Path, t: DirWatch, host: Host)
    reads w
  {
    w.wd == AddWatchResult(host, p) && w.path == p && w.events == DIR_EVENTS && w.watcher == Tree(t)
  }

  /**
   * ws are the watches nih_dir_add_file_watch appends for t when called on
   * each of ps in turn: one for every path the kernel grants, none for the
   * others.
   */
  predicate Added(ws: seq<FileWatch>, ps: seq<Path>, t: DirWatch, host: Host)
    reads ws
    decreases ps
  {
    if ps == [] then ws == []
    else if Granted(host, ps[0]) then ws != [] && TreeWatchOn(ws[0], ps[0], t, host) && Added(ws[1..], ps[1..], t, host)
    else Added(ws, ps[1..], t, host)
  }

  /** The watches Added describes are, in order, one on each path Watchable keeps. */
  lemma {:induction false} AddedSpec(ws: seq<FileWatch>, ps: seq<Path>, t: DirWatch, host: Host)
    requires Added(ws, ps, t, host)
    ensures |ws| == |Watchable(host, ps)|
    ensures forall i :: 0 <= i < |ws| ==> TreeWatchOn(ws[i], Watchable(host, ps)[i], t, host)
  {
    if ps != [] {
      if Granted(host, ps[0]) {
        AddedSpec(ws[1..], ps[1..], t, host);
        assert forall i :: 1 <= i < |ws| ==> ws[i] == ws[1..][i - 1];
      } else {
        AddedSpec(ws, ps[1..], t, host);
      }
    }
  }

  lemma {:induction false} AddedAppend(a: seq<FileWatch>, p: seq<Path>, b: seq<FileWatch>, q: seq<Path>, t: DirWatch, host: Host)
    requires Added(a, p, t, host) && Added(b, q, t, host)
    ensures Added(a + b, p + q, t, host)
  {
    if p == [] {
      assert a + b == b && p + q == q;
    } else {
      assert (p + q)[0] == p[0] && (p + q)[1..] == p[1..] + q;
      if Granted(host, p[0]) {
        AddedAppend(a[1..], p[1..], b, q, t, host);
        assert (a + b)[0] == a[0] && (a + b)[1..] == a[1..] + b;
      } else {
        AddedAppend(a, p[1..], b, q, t, host);
      }
    }
  }

  /* Events. */

  /** The IN_IGNORED or IN_MOVE_SELF bit: the watched directory itself went away. */
  predicate SelfRemoval(events: bv32) {
    events & IN_IGNORED != 0 || events & IN_MOVE_SELF != 0
  }

  /** The three handlers of a tree watch. */
  datatype ContentKind = Create | Modify | Delete

  /** The bits that ask for each handler. */
  predicate Signals(events: bv32, k: ContentKind) {
    match k
    case Create => events & (IN_CREATE | IN_MOVED_TO) != 0
    case Modify => events & IN_MODIFY != 0
    case Delete => events & (IN_DELETE | IN_MOVED_FROM) != 0
  }

  /** The order of precedence among the handlers when several are signalled. */
  function Rank(k: ContentKind): nat {
    match k
    case Create => 0
    case Modify => 1
    case Delete => 2
  }

  /**
   * The handler nih_dir_watcher chooses for a content event: the signalled
   * one of highest precedence, none when no handler's bits are set.
   */
  function Classify(events: bv32): (k: Option<ContentKind>)
    ensures k.None? <==> forall c :: !Signals(events, c)
    ensures k.Some? ==> Signals(events, k.value)
    ensures k.Some? ==> forall c :: Signals(events, c) ==> Rank(k.value) <= Rank(c)
  {
    if events & IN_CREATE != 0 || events & IN_MOVED_TO != 0 then
      assert Signals(events, Create);
      Some(Create)
    else if events & IN_MODIFY != 0 then
      assert Signals(events, Modify) && !Signals(events, Create);
      Some(Modify)
    else if events & IN_DELETE != 0 || events & IN_MOVED_FROM != 0 then
      assert Signals(events, Delete) && !Signals(events, Create) && !Signals(events, Modify);
      Some(Delete)
    else
      assert !Signals(events, Create) && !Signals(events, Modify) && !Signals(events, Delete);
      None
  }
}
