/**
 * The watch machinery of nih/file.c as one object: the file_watches list,
 * the inotify_rm_watch calls made so far and the calls made into users so
 * far.  The kernel and the file tree are the Host each operation is given.
 */
module FileWatching {
  import opened Wrappers
  import opened FileSystem
  import opened InotifyEvent
  import opened DirWalkSpec
  import opened Watches

  /** Why an add fails: inotify_init failed, inotify_add_watch failed, stat failed, not a directory, the walk failed. */
  datatype FileError = NoInotify | Refused | StatFailed | NotADirectory | WalkFailed

  /**
   * The visitor a walk calls: a caller's, whose return values are given as
   * a function of the path, or nih_dir_add_file_watch for a tree watch.
   */
  datatype Visitor = Report(results: Path -> int) | AddDirWatch(tree: DirWatch)

  /** nih_dir_add_file_watch returns 0 whatever happens. */
  function Zero(p: Path): int { 0 }

  function Results(v: Visitor): Path -> int {
    match v
    case Report(results) => results
    case AddDirWatch(_) => Zero
  }

  /** The walk a tree watch makes below path: directories only, the tree's filter, nothing failing but opendir. */
  function TreeWalk(fs: map<Path, Inode>, path: Path, filter: Path -> bool): Outcome {
    Walk(fs, path, Selects(S_IFDIR), filter, Zero)
  }

  /** The visitor calls on ps, in order. */
  function VisitCalls(ps: seq<Path>): (r: seq<Callback>)
    ensures |r| == |ps|
  {
    if ps == [] then [] else [Visited(ps[0])] + VisitCalls(ps[1..])
  }

  lemma {:induction false} VisitCallsAppend(p: seq<Path>, q: seq<Path>)
    ensures VisitCalls(p + q) == VisitCalls(p) + VisitCalls(q)
  {
    if p == [] {
      assert p + q == q;
    } else {
      assert (p + q)[0] == p[0] && (p + q)[1..] == p[1..] + q;
      VisitCallsAppend(p[1..], q);
    }
  }

  /** ws is ws0 followed by the watches nih_dir_add_file_watch makes for t on each of ps in turn. */
  predicate Appended(ws0: seq<FileWatch>, ws: seq<FileWatch>, ps: seq<Path>, t: DirWatch, host: Host)
    reads ws
  {
    |ws0| <= |ws| && ws[..|ws0|] == ws0 && Added(ws[|ws0|..], ps, t, host)
  }

  /**
   * What calling the visitor on each of ps in turn did to the watch list
   * (ws0 before, ws after) and to the calls made (tr0 before, tr after).
   */
  predicate VisitEffects(visitor: Visitor, host: Host, ps: seq<Path>, ws0: seq<FileWatch>, tr0: seq<Callback>,
                         ws: seq<FileWatch>, tr: seq<Callback>)
    reads ws
  {
    match visitor
    case Report(_) => ws == ws0 && tr == tr0 + VisitCalls(ps)
    case AddDirWatch(t) => tr == tr0 && Appended(ws0, ws, ps, t, host)
  }

  lemma NoEffects(visitor: Visitor, host: Host, ws: seq<FileWatch>, tr: seq<Callback>)
    ensures VisitEffects(visitor, host, [], ws, tr, ws, tr)
  {
    assert ws[..|ws|] == ws && tr + VisitCalls([]) == tr;
  }

  lemma EffectsCompose(visitor: Visitor, host: Host, p: seq<Path>, q: seq<Path>,
                       ws0: seq<FileWatch>, tr0: seq<Callback>, ws1: seq<FileWatch>, tr1: seq<Callback>,
                       ws2: seq<FileWatch>, tr2: seq<Callback>)
    requires VisitEffects(visitor, host, p, ws0, tr0, ws1, tr1)
    requires VisitEffects(visitor, host, q, ws1, tr1, ws2, tr2)
    ensures VisitEffects(visitor, host, p + q, ws0, tr0, ws2, tr2)
  {
    match visitor
    case Report(_) =>
      VisitCallsAppend(p, q);
    case AddDirWatch(t) =>
      assert ws2[|ws0|..] == ws1[|ws0|..] + ws2[|ws1|..];
      assert ws2[..|ws0|] == ws1[..|ws0|];
      AddedAppend(ws1[|ws0|..], p, ws2[|ws1|..], q, t, host);
  }

  /** The registry's list, its descriptors in list order, the calls made and the cancellations, at one moment. */
  datatype Snapshot = Snapshot(watches: seq<FileWatch>, wds: seq<int>, trace: seq<Callback>, cancels: seq<int>)

  /** Another listed watch holds w's descriptor. */
  predicate Shared(ws: seq<FileWatch>, w: FileWatch)
    reads ws, w
  {
    exists i :: 0 <= i < |ws| && ws[i] != w && ws[i].wd == w.wd
  }

  /**
   * The watch x is freed when w, a watch of tree t, goes away: all of t's
   * watches when w is the root's, otherwise w alone unless its descriptor
   * is shared.
   */
  predicate Freed(t: DirWatch, w: FileWatch, x: FileWatch, shared: bool) {
    if w.path == t.path then x.watcher == Tree(t) else x == w && !shared
  }

  /** The descriptors the kernel hands out for ps, in order. */
  function Descriptors(host: Host, ps: seq<Path>): (ds: seq<int>)
    ensures |ds| == |ps|
  {
    if ps == [] then [] else [AddWatchResult(host, ps[0])] + Descriptors(host, ps[1..])
  }

  /**
   * What an event about path in tree t did to the watch list (ws0 before,
   * ws after) and to the calls made (tr0 before, tr after): nothing when the
   * filter rejects path or no handler is signalled; otherwise the call to
   * the handler Classify picks, and for a new directory in a tree with
   * subdirs a watch on it and on each directory the walk below it reaches.
   * At most one call is made, and the list only grows at its end.
   */
  predicate ContentEffects(t: DirWatch, path: Path, events: bv32, host: Host,
                           ws0: seq<FileWatch>, tr0: seq<Callback>, ws: seq<FileWatch>, tr: seq<Callback>): (r: bool)
    reads ws
    ensures r ==> tr0 <= tr && |tr| <= |tr0| + 1 && ws0 <= ws
  {
    var k := if t.filter(path) then None else Classify(events);
    if k == Some(Create) then
      tr == tr0 + Call(t.onCreate, Created(t, path))
      && if t.subdirs && IsDirAt(host.fs, path)
         then Appended(ws0, ws, [path] + Paths(TreeWalk(host.fs, path, t.filter).visits), t, host)
         else ws == ws0
    else if k == Some(Modify) then tr == tr0 + Call(t.onModify, Modified(t, path)) && ws == ws0
    else if k == Some(Delete) then tr == tr0 + Call(t.onDelete, Deleted(t, Some(path))) && ws == ws0
    else tr == tr0 && ws == ws0
  }

  class Registry {
    /** file_watches, in list order. */
    var watches: seq<FileWatch>
    /** The descriptors passed to inotify_rm_watch, in order. */
    var cancels: seq<int>
    /** The calls made into users, in order. */
    var trace: seq<Callback>

    /** Every listed watch holds a descriptor the kernel gave it, and none is listed twice. */
    ghost predicate Valid()
      reads this, watches
    {
      (forall w :: w in watches ==> w.wd >= 0) && Distinct(watches)
    }

    constructor ()
      ensures Valid() && watches == [] && cancels == [] && trace == []
    {
      watches := [];
      cancels := [];
      trace := [];
    }

    /**
     * nih_file_add_watch: one new watch at the end of the list when the
     * kernel grants one, nothing when it does not.
     */
    method AddWatch(path: Path, events: bv32, watcher: Watcher, host: Host) returns (r: Result<FileWatch, FileError>)
      requires Valid()
      requires events != 0
      modifies this
      ensures Valid()
      ensures r.Success? <==> Granted(host, path)
      ensures r.Success? ==> fresh(r.value) && watches == old(watches) + [r.value]
      ensures r.Success? ==> r.value.wd == AddWatchResult(host, path) && r.value.path == path
                             && r.value.events == events && r.value.watcher == watcher
      ensures r.Failure? ==> watches == old(watches) && r.error == (if host.inotify then Refused else NoInotify)
      ensures cancels == old(cancels) && trace == old(trace)
    {
      if !host.inotify {
        return Failure(NoInotify);
      }
      var wd := AddWatchResult(host, path);
      if wd < 0 {
        return Failure(Refused);
      }
      var w := new FileWatch(wd, path, events, watcher);
      DistinctAppend(watches, w);
      watches := watches + [w];
      r := Success(w);
    }

    /**
     * nih_file_remove_watch: a watch already removed (descriptor negative)
     * is left alone; otherwise its descriptor is cancelled, set to -1 and
     * the watch unlinked, the rest of the list staying as it was.
     */
    method RemoveWatch(w: FileWatch)
      requires Valid()
      modifies this, w
      ensures Valid()
      ensures old(w.wd) < 0 ==> w.wd == old(w.wd) && watches == old(watches) && cancels == old(cancels)
      ensures old(w.wd) >= 0 ==> w.wd == -1 && watches == Without(old(watches), w) && cancels == old(cancels) + [old(w.wd)]
      ensures trace == old(trace)
    {
      if w.wd < 0 {
        return;
      }
      cancels := cancels + [w.wd];
      w.wd := -1;
      watches := Without(watches, w);
    }

    /** The list scan of nih_file_reader: the first watch holding descriptor wd. */
    method FindWatch(wd: int) returns (m: Option<nat>)
      ensures m == FirstMatch(Wds(watches), wd)
      ensures m.Some? ==> m.value < |watches| && watches[m.value].wd == wd
    {
      var i := 0;
      while i < |watches|
        invariant 0 <= i <= |watches|
        invariant forall j :: 0 <= j < i ==> watches[j].wd != wd
      {
        if watches[i].wd == wd {
          WdsAt(watches);
          FirstMatchAt(Wds(watches), wd, i);
          return Some(i);
        }
        i := i + 1;
      }
      WdsAt(watches);
      FirstMatchFirst(Wds(watches), wd);
      return None;
    }

    /** The list scan of nih_dir_watcher: whether another listed watch holds w's descriptor. */
    method SharesDescriptor(w: FileWatch) returns (found: bool)
      ensures found <==> Shared(watches, w)
    {
      found := false;
      var i := 0;
      while i < |watches|
        invariant 0 <= i <= |watches|
        invariant found <==> exists j :: 0 <= j < i && watches[j] != w && watches[j].wd == w.wd
      {
        var fw := watches[i];
        if fw != w && fw.wd == w.wd {
          found := true;
        }
        i := i + 1;
      }
    }

    /**
     * nih_file_reader: whole records are taken from the front of the
     * delivery, each handed to the watcher of the first watch holding its
     * descriptor; what is left is at most a partial record.  rest is the
     * receive buffer, whose front each nih_io_read takes away.
     */
    method Reader(buf: seq<byte>, host: Host) returns (consumed: nat)
      requires Valid()
      requires |buf| > 0
      modifies this, watches
      ensures Valid()
      ensures consumed == Parse(buf).consumed
      ensures old(AllUser(watches)) ==>
        watches == old(watches) && Wds(watches) == old(Wds(watches)) && cancels == old(cancels)
        && trace == old(trace) + Notifications(old(watches), old(Wds(watches)), Parse(buf).events)
    {
      ghost var ws0, ds0 := watches, Wds(watches);
      ghost var goal := old(trace) + if AllUser(ws0) then Notifications(ws0, ds0, Parse(buf).events) else [];
      var rest := buf;
      var len: nat := |buf|;
      while len > 0
        invariant len == |rest| <= |buf|
        invariant Parse(buf).consumed == |buf| - len + Parse(rest).consumed
        invariant Valid()
        invariant forall i :: 0 <= i < |watches| ==> watches[i] in old(watches) || fresh(watches[i])
        invariant AllUser(ws0) ==>
          watches == ws0 && Wds(watches) == ds0 && cancels == old(cancels)
          && trace + Notifications(ws0, ds0, Parse(rest).events) == goal
      {
        var more, sz := ReadRecord(rest, host, ws0, ds0, goal);
        if !more {
          break;
        }
        rest := rest[sz..];
        len := len - sz;
      }
      consumed := |buf| - len;
    }

    /**
     * One pass of nih_file_reader's loop on what is left of the buffer:
     * unless only a partial record is left, the record at the front is
     * dispatched and sz is its size.  Each pass keeps the reader's account
     * of the calls still to come (goal) when every watch is a caller's.
     */
    method ReadRecord(rest: seq<byte>, host: Host, ghost ws0: seq<FileWatch>, ghost ds0: seq<int>, ghost goal: seq<Callback>)
      returns (more: bool, sz: nat)
      requires Valid()
      requires AllUser(ws0) ==>
        |ws0| == |ds0| && watches == ws0 && Wds(watches) == ds0
        && trace + Notifications(ws0, ds0, Parse(rest).events) == goal
      modifies this, watches
      ensures Valid()
      ensures forall i :: 0 <= i < |watches| ==> watches[i] in old(watches) || fresh(watches[i])
      ensures !more ==> Parse(rest) == Parsed([], 0)
      ensures more ==> 0 < sz <= |rest| && Parse(rest).consumed == sz + Parse(rest[sz..]).consumed
      ensures AllUser(ws0) ==>
        watches == ws0 && Wds(watches) == ds0 && cancels == old(cancels)
        && trace + Notifications(ws0, ds0, Parse(if more then rest[sz..] else rest).events) == goal
    {
      var e;
      e, sz := TakeRecord(rest);
      if e.None? {
        return false, sz;
      }
      ghost var tr1 := trace;
      Dispatch(e.value, host);
      if AllUser(ws0) {
        NotifyStep(ws0, ds0, tr1, goal, e.value, Parse(rest).events, Parse(rest[sz..]).events);
      }
      more := true;
    }

    /** One record, handed to the first watch holding its descriptor, if any. */
    method Dispatch(e: Event, host: Host)
      requires Valid()
      modifies this, watches
      ensures Valid()
      ensures forall i :: 0 <= i < |watches| ==> watches[i] in old(watches) || fresh(watches[i])
      ensures FirstMatch(old(Wds(watches)), Wd(e)).None? || Wd(e) < 0 ==>
        watches == old(watches) && trace == old(trace) && cancels == old(cancels)
      ensures FirstMatch(old(Wds(watches)), Wd(e)).None? || Wd(e) < 0 ==>
        forall x :: x in old(watches) ==> x.wd == old(x.wd)
      ensures var m := FirstMatch(old(Wds(watches)), Wd(e));
        m.Some? && old(watches)[m.value].watcher.User? ==>
          var w := old(watches)[m.value];
          watches == old(watches) && cancels == old(cancels)
          && (forall x :: x in old(watches) ==> x.wd == old(x.wd))
          && trace == old(trace) + [Notified(w.watcher.data, w, MaskBits(e), Cookie(e), NameArg(e))]
      ensures var m := FirstMatch(old(Wds(watches)), Wd(e));
        m.Some? && old(watches)[m.value].watcher.Tree? ==>
          var w := old(watches)[m.value];
          Reacted(old(Snap()), w.watcher.tree, w, old(w.wd), MaskBits(e), NameArg(e), host)
      ensures old(AllUser(watches)) ==>
        watches == old(watches) && Wds(watches) == old(Wds(watches)) && cancels == old(cancels)
        && trace == old(trace) + Notify(old(watches), old(Wds(watches)), e)
    {
      var m := FindWatch(Wd(e));
      if m.Some? {
        var w := watches[m.value];
        assert w in watches;
        match w.watcher
        case User(data) =>
          trace := trace + [Notified(data, w, MaskBits(e), Cookie(e), NameArg(e))];
        case Tree(t) =>
          assert Wd(e) >= 0 && m == FirstMatch(Wds(watches), Wd(e)) && !AllUser(watches);
          DirWatcher(t, w, MaskBits(e), Cookie(e), NameArg(e), host);
      }
    }

    /** nih_dir_add_file_watch: a tree watch on path when the kernel grants one; a refusal only warns. */
    method DirAddFileWatch(t: DirWatch, path: Path, host: Host) returns (ret: int)
      requires Valid()
      modifies this
      ensures Valid()
      ensures ret == 0
      ensures Appended(old(watches), watches, [path], t, host)
      ensures cancels == old(cancels) && trace == old(trace)
      ensures forall i :: 0 <= i < |watches| ==> watches[i] in old(watches) || fresh(watches[i])
    {
      var r := AddWatch(path, DIR_EVENTS, Tree(t), host);
      assert watches[..|old(watches)|] == old(watches);
      ret := 0;
    }

    /** The visitor called on path. */
    method Visit(visitor: Visitor, path: Path, host: Host) returns (r: int)
      requires Valid()
      modifies this
      ensures Valid()
      ensures r == Results(visitor)(path)
      ensures VisitEffects(visitor, host, [path], old(watches), old(trace), watches, trace)
      ensures cancels == old(cancels)
      ensures forall i :: 0 <= i < |watches| ==> watches[i] in old(watches) || fresh(watches[i])
    {
      match visitor
      case Report(results) =>
        trace := trace + [Visited(path)];
        r := results(path);
      case AddDirWatch(t) =>
        r := DirAddFileWatch(t, path, host);
    }

    /**
     * nih_dir_walk: the value returned, and the visitor calls made, are
     * those of Walk with the types test.
     */
    method DirWalk(path: Path, types: bv32, filter: Path -> bool, visitor: Visitor, host: Host) returns (ret: int)
      requires Valid()
      requires types != 0
      modifies this
      decreases Longer(host.fs, path), 3
      ensures Valid()
      ensures var o := Walk(host.fs, path, Selects(types), filter, Results(visitor));
        ret == o.ret && VisitEffects(visitor, host, Paths(o.visits), old(watches), old(trace), watches, trace)
      ensures cancels == old(cancels)
      ensures forall i :: 0 <= i < |watches| ==> watches[i] in old(watches) || fresh(watches[i])
    {
      var wanted, results := Selects(types), Results(visitor);
      if !Openable(host.fs, path) {
        return -1;
      }
      var names := host.fs[path].listing.value;
      ghost var vs: seq<Entry> := [];
      ghost var ens: seq<Entry> := [];
      ret := 0;
      NoEffects(visitor, host, watches, trace);
      assert names[0..] == names;
      assert Walk(host.fs, path, wanted, filter, results)
          == Prepend(vs, ens, WalkEntries(host.fs, path, names[0..], wanted, filter, results, ret));
      var k := 0;
      while k < |names|
        invariant 0 <= k <= |names|
        invariant Walk(host.fs, path, wanted, filter, results)
               == Prepend(vs, ens, WalkEntries(host.fs, path, names[k..], wanted, filter, results, ret))
        invariant Valid()
        invariant VisitEffects(visitor, host, Paths(vs), old(watches), old(trace), watches, trace)
        invariant cancels == old(cancels)
        invariant forall i :: 0 <= i < |watches| ==> watches[i] in old(watches) || fresh(watches[i])
      {
        var stop, r;
        stop, r, vs, ens := WalkStep(path, names, k, types, filter, visitor, host, ret, vs, ens, old(watches), old(trace));
        ret := r;
        if stop {
          break;
        }
        k := k + 1;
      }
      if k == |names| {
        assert names[k..] == [] && vs + [] == vs && ens + [] == ens;
      }
    }

    /**
     * One pass of nih_dir_walk's readdir loop, on the k-th name of path's
     * listing, carrying the loop's account of the walk (vs visited and ens
     * entered so far, with their effects since ws0 and tr0) past that entry.
     */
    method WalkStep(path: Path, names: seq<string>, k: nat, types: bv32, filter: Path -> bool, visitor: Visitor,
                    host: Host, ret: int, ghost vs: seq<Entry>, ghost ens: seq<Entry>,
                    ghost ws0: seq<FileWatch>, ghost tr0: seq<Callback>)
      returns (stop: bool, r: int, ghost vs': seq<Entry>, ghost ens': seq<Entry>)
      requires Valid()
      requires types != 0 && k < |names|
      requires Walk(host.fs, path, Selects(types), filter, Results(visitor))
            == Prepend(vs, ens, WalkEntries(host.fs, path, names[k..], Selects(types), filter, Results(visitor), ret))
      requires VisitEffects(visitor, host, Paths(vs), ws0, tr0, watches, trace)
      modifies this
      decreases Longer(host.fs, path), 2
      ensures Valid()
      ensures stop ==> Walk(host.fs, path, Selects(types), filter, Results(visitor)) == Outcome(r, vs', ens')
      ensures !stop ==>
        Walk(host.fs, path, Selects(types), filter, Results(visitor))
        == Prepend(vs', ens', WalkEntries(host.fs, path, names[k + 1..], Selects(types), filter, Results(visitor), r))
      ensures VisitEffects(visitor, host, Paths(vs'), ws0, tr0, watches, trace)
      ensures cancels == old(cancels)
      ensures forall i :: 0 <= i < |watches| ==> watches[i] in old(watches) || fresh(watches[i])
    {
      ghost var s := EntryStep(host.fs, path, names[k], Selects(types), filter, Results(visitor), ret);
      LoopStep(host.fs, path, names, k, Selects(types), filter, Results(visitor), ret, vs, ens);
      stop, r := DirEntry(path, names[k], types, filter, visitor, host, ret);
      EffectsCompose(visitor, host, Paths(vs), Paths(s.visits), ws0, tr0, old(watches), old(trace), watches, trace);
      PathsAppend(vs, s.visits);
      vs', ens' := vs + s.visits, ens + s.entered;
    }

    /** One pass of nih_dir_walk's readdir loop, for the entry called name. */
    method DirEntry(dir: Path, name: string, types: bv32, filter: Path -> bool, visitor: Visitor, host: Host, ret: int)
      returns (stop: bool, r: int)
      requires Valid()
      requires types != 0
      modifies this
      decreases Longer(host.fs, dir), 1
      ensures Valid()
      ensures var s := EntryStep(host.fs, dir, name, Selects(types), filter, Results(visitor), ret);
        stop == s.stop && r == s.ret && VisitEffects(visitor, host, Paths(s.visits), old(watches), old(trace), watches, trace)
      ensures cancels == old(cancels)
      ensures forall i :: 0 <= i < |watches| ==> watches[i] in old(watches) || fresh(watches[i])
    {
      if IsDots(name) || filter(Join(dir, name)) || Join(dir, name) !in host.fs {
        NoEffects(visitor, host, watches, trace);
        return false, ret;
      }
      stop, r := Admit(dir, name, types, filter, visitor, host, ret);
    }

    /** The rest of the pass for an entry the walk does not pass over: the visit, if asked for, then the descent. */
    method Admit(dir: Path, name: string, types: bv32, filter: Path -> bool, visitor: Visitor, host: Host, ret: int)
      returns (stop: bool, r: int)
      requires Valid()
      requires types != 0
      requires !IsDots(name) && !filter(Join(dir, name)) && Join(dir, name) in host.fs
      modifies this
      decreases Longer(host.fs, dir), 0
      ensures Valid()
      ensures var s := EntryStep(host.fs, dir, name, Selects(types), filter, Results(visitor), ret);
        stop == s.stop && r == s.ret && VisitEffects(visitor, host, Paths(s.visits), old(watches), old(trace), watches, trace)
      ensures cancels == old(cancels)
      ensures forall i :: 0 <= i < |watches| ==> watches[i] in old(watches) || fresh(watches[i])
    {
      NoEffects(visitor, host, watches, trace);
      var sub := Join(dir, name);
      var mode := host.fs[sub].mode;
      var e := Entry(dir, name);
      assert PathOf(e) == sub;
      ghost var v: seq<Entry> := [];
      r := ret;
      if Selects(types)(mode) {
        r := Visit(visitor, sub, host);
        v := [e];
        assert Paths(v) == [sub];
        if r < 0 {
          return true, r;
        }
      }
      if IsDir(mode) {
        ghost var ws1, tr1 := watches, trace;
        LongerShrinks(host.fs, dir, sub);
        r := DirWalk(sub, types, filter, visitor, host);
        ghost var d := Walk(host.fs, sub, Selects(types), filter, Results(visitor));
        EffectsCompose(visitor, host, Paths(v), Paths(d.visits), old(watches), old(trace), ws1, tr1, watches, trace);
        PathsAppend(v, d.visits);
        if r < 0 {
          return true, r;
        }
      }
      stop := false;
    }

    /**
     * nih_dir_add_watch: refused when path cannot be stat'd or is not a
     * directory; otherwise a tree watch with a file watch on path and, with
     * subdirs, on every directory the walk below it reaches.  When the root
     * watch or the walk fails the tree is freed, cancelling what was added.
     */
    method DirAddWatch(path: Path, subdirs: bool, filter: Path -> bool, onCreate: bool, onModify: bool, onDelete: bool,
                       data: nat, host: Host) returns (r: Result<DirWatch, FileError>)
      requires Valid()
      modifies this, watches
      ensures Valid()
      ensures trace == old(trace)
      ensures forall i :: 0 <= i < |watches| ==> watches[i] in old(watches) || fresh(watches[i])
      ensures path !in host.fs ==> r == Failure(StatFailed)
      ensures path in host.fs && !IsDir(host.fs[path].mode) ==> r == Failure(NotADirectory)
      ensures IsDirAt(host.fs, path) && !Granted(host, path) ==>
        r == Failure(if host.inotify then Refused else NoInotify)
      ensures r.Failure? && r.error != WalkFailed ==> watches == old(watches) && cancels == old(cancels)
      ensures var o := TreeWalk(host.fs, path, filter);
        IsDirAt(host.fs, path) && Granted(host, path) && subdirs && o.ret < 0 ==>
          r == Failure(WalkFailed) && watches == old(watches)
          && cancels == old(cancels) + Descriptors(host, Watchable(host, [path] + Paths(o.visits)))
      ensures var o := TreeWalk(host.fs, path, filter);
        IsDirAt(host.fs, path) && Granted(host, path) && !(subdirs && o.ret < 0) ==>
          r.Success? && fresh(r.value) && cancels == old(cancels)
          && Appended(old(watches), watches, [path] + (if subdirs then Paths(o.visits) else []), r.value, host)
      ensures r.Success? ==> r.value.path == path && r.value.subdirs == subdirs && r.value.filter == filter
                             && r.value.onCreate == onCreate && r.value.onModify == onModify
                             && r.value.onDelete == onDelete && r.value.data == data
      ensures forall x :: x in old(watches) ==> x.wd == old(x.wd)
    {
      if path !in host.fs {
        return Failure(StatFailed);
      }
      if !IsDir(host.fs[path].mode) {
        return Failure(NotADirectory);
      }
      var t := new DirWatch(path, subdirs, filter, onCreate, onModify, onDelete, data);
      ghost var ws0, c0 := watches, cancels;
      assert forall x :: x in ws0 ==> x.watcher != Tree(t);
      var root := AddWatch(path, DIR_EVENTS, Tree(t), host);
      if root.Failure? {
        Discard(t);
        return Failure(root.error);
      }
      ghost var ws1 := watches;
      assert forall x :: x in ws1 ==> x in ws0 || x == root.value;
      assert Appended(ws0, ws1, [path], t, host) by {
        assert ws1[..|ws0|] == ws0 && ws1[|ws0|..] == [root.value];
      }
      if subdirs {
        var failed := WatchBelow(t, ws0, host);
        if failed {
          return Failure(WalkFailed);
        }
      }
      r := Success(t);
    }

    /** Freeing a tree that owns no watch leaves the list and the cancellations as they were. */
    method Discard(t: DirWatch)
      requires Valid()
      requires forall x :: x in watches ==> x.watcher != Tree(t)
      modifies this, watches
      ensures Valid()
      ensures watches == old(watches) && cancels == old(cancels) && trace == old(trace)
      ensures forall x :: x in old(watches) ==> x.wd == old(x.wd)
    {
      NoneOwned(watches, t);
      FreeTree(t);
    }

    /**
     * The walk nih_dir_add_watch makes below the root of a new tree t, whose
     * only watch so far is the root's (ws0 is the list before it): each
     * directory the walk reaches gets a watch; when the walk fails the tree
     * is freed, which cancels and unlinks every watch it had.
     */
    method WatchBelow(t: DirWatch, ghost ws0: seq<FileWatch>, host: Host) returns (failed: bool)
      requires Valid()
      requires Appended(ws0, watches, [t.path], t, host)
      requires forall x :: x in ws0 ==> x.watcher != Tree(t)
      modifies this, watches
      ensures Valid()
      ensures trace == old(trace)
      ensures forall i :: 0 <= i < |watches| ==> watches[i] in old(watches) || fresh(watches[i])
      ensures var o := TreeWalk(host.fs, t.path, t.filter);
        failed == (o.ret < 0)
        && (failed ==> watches == ws0 && cancels == old(cancels) + Descriptors(host, Watchable(host, [t.path] + Paths(o.visits))))
        && (!failed ==> cancels == old(cancels) && Appended(ws0, watches, [t.path] + Paths(o.visits), t, host))
      ensures forall x :: x in old(watches) ==> x.wd == if failed && x.watcher == Tree(t) then -1 else old(x.wd)
    {
      ghost var ws1, tr := watches, trace;
      var ret := DirWalk(t.path, S_IFDIR, t.filter, AddDirWatch(t), host);
      ghost var ps := [t.path] + Paths(TreeWalk(host.fs, t.path, t.filter).visits);
      EffectsCompose(AddDirWatch(t), host, [t.path], Paths(TreeWalk(host.fs, t.path, t.filter).visits),
                     ws0, tr, ws1, tr, watches, tr);
      failed := ret < 0;
      assert forall x :: x in ws1 ==> x in watches by {
        assert watches[..|ws1|] == ws1;
      }
      if failed {
        Abandon(t, ws0, ps, host);
      }
    }

    /**
     * Freeing a new tree t whose watches, one on each of ps the kernel
     * granted, all follow ws0: the list goes back to ws0 and their
     * descriptors are cancelled in order.
     */
    method Abandon(t: DirWatch, ghost ws0: seq<FileWatch>, ghost ps: seq<Path>, host: Host)
      requires Valid()
      requires Appended(ws0, watches, ps, t, host)
      requires forall x :: x in ws0 ==> x.watcher != Tree(t)
      modifies this, watches
      ensures Valid()
      ensures watches == ws0 && cancels == old(cancels) + Descriptors(host, Watchable(host, ps))
      ensures forall x :: x in old(watches) ==> x.wd == if x.watcher == Tree(t) then -1 else old(x.wd)
      ensures trace == old(trace)
    {
      TornDown(ws0, watches, ps, t, host);
      FreeTree(t);
    }

    /**
     * Freeing a tree watch: nih_alloc frees each file watch it owns, whose
     * destructor removes it, so each is cancelled and unlinked and the rest
     * of the list stays as it was.
     */
    method FreeTree(t: DirWatch)
      requires Valid()
      modifies this, watches
      ensures Valid()
      ensures watches == Unowned(old(watches), t)
      ensures cancels == old(cancels) + OwnedWds(old(watches), old(Wds(watches)), t)
      ensures forall x :: x in old(watches) ==> x.wd == if x.watcher == Tree(t) then -1 else old(x.wd)
      ensures trace == old(trace)
    {
      var all := watches;
      ghost var ds := Wds(watches);
      WdsAt(watches);
      var i := 0;
      assert all[..0] == [] && all[0..] == all;
      while i < |all|
        invariant 0 <= i <= |all|
        invariant watches == Unowned(all[..i], t) + all[i..]
        invariant cancels == old(cancels) + OwnedWds(all[..i], ds[..i], t)
        invariant forall j :: 0 <= j < |all| ==> all[j].wd == if j < i && all[j].watcher == Tree(t) then -1 else ds[j]
        invariant Valid()
        invariant trace == old(trace)
      {
        FreeOne(all, ds, i, t, old(cancels));
        i := i + 1;
      }
      assert all[..|all|] == all && ds[..|ds|] == ds;
    }

    /** One pass of FreeTree's loop: the i-th watch of the list it started from is removed if t owns it. */
    method FreeOne(all: seq<FileWatch>, ghost ds: seq<int>, i: nat, t: DirWatch, ghost c0: seq<int>)
      requires i < |all| == |ds| && Distinct(all) && Valid()
      requires watches == Unowned(all[..i], t) + all[i..]
      requires cancels == c0 + OwnedWds(all[..i], ds[..i], t)
      requires forall j :: 0 <= j < |all| ==> all[j].wd == if j < i && all[j].watcher == Tree(t) then -1 else ds[j]
      modifies this, all[i]
      ensures Valid()
      ensures watches == Unowned(all[..i + 1], t) + all[i + 1..]
      ensures cancels == c0 + OwnedWds(all[..i + 1], ds[..i + 1], t)
      ensures forall j :: 0 <= j < |all| ==> all[j].wd == if j < i + 1 && all[j].watcher == Tree(t) then -1 else ds[j]
      ensures trace == old(trace)
    {
      FreeStep(all, ds, i, t);
      ghost var u, c := Unowned(all[..i], t), OwnedWds(all[..i], ds[..i], t);
      DistinctAt(all, i);
      if all[i].watcher == Tree(t) {
        assert all[i] in watches;
        WithoutFront(u, all[i..]);
        RemoveWatch(all[i]);
        Regroup(c0, c, ds[i]);
      } else {
        ShiftOne(u, all[i..]);
      }
    }

    /** The registry's state as values: the list, its descriptors in list order, the calls and the cancellations. */
    ghost function Snap(): (r: Snapshot)
      reads this, watches
      ensures |r.watches| == |r.wds|
    {
      Snapshot(watches, Wds(watches), trace, cancels)
    }

    /**
     * What nih_dir_watcher does for an event on w, a watch of tree t whose
     * descriptor was wd, when the registry was s before:
     *   - a zero mask, or a content event without a name, fails an assertion
     *     and nothing else happens;
     *   - the root going away calls the delete handler with no path and
     *     frees the tree: its watches are cancelled, unlinked and set to -1;
     *   - a sub-directory going away unlinks w, cancelling it and setting it
     *     to -1 only when no other watch holds its descriptor;
     *   - any other event has the effects ContentEffects gives on the path
     *     parent/name.
     * In every case each watch that is not freed keeps its descriptor,
     * cancellations are only added, and at most one call is made.
     */
    ghost predicate Reacted(s: Snapshot, t: DirWatch, w: FileWatch, wd: int, events: bv32, name: Option<string>, host: Host): (r: bool)
      requires |s.watches| == |s.wds|
      reads this, watches, s.watches
      ensures r ==> s.cancels <= cancels && s.trace <= trace && |trace| <= |s.trace| + 1
    {
      if events == 0 || (!SelfRemoval(events) && name.None?) then
        trace == s.trace + [AssertionFailed] && watches == s.watches && cancels == s.cancels
        && forall i :: 0 <= i < |s.watches| ==> s.watches[i].wd == s.wds[i]
      else if SelfRemoval(events) then
        var shared := exists i :: 0 <= i < |s.watches| && s.watches[i] != w && s.wds[i] == wd;
        (if w.path == t.path then
           trace == s.trace + Call(t.onDelete, Deleted(t, None))
           && watches == Unowned(s.watches, t)
           && cancels == s.cancels + OwnedWds(s.watches, s.wds, t)
         else
           trace == s.trace && watches == Without(s.watches, w)
           && cancels == s.cancels + (if shared then [] else [wd]))
        && forall i :: 0 <= i < |s.watches| ==>
             s.watches[i].wd == if Freed(t, w, s.watches[i], shared) then -1 else s.wds[i]
      else
        ContentEffects(t, Join(w.path, name.value), events, host, s.watches, s.trace, watches, trace)
        && cancels == s.cancels
        && forall i :: 0 <= i < |s.watches| ==> s.watches[i].wd == s.wds[i]
    }

    /**
     * nih_dir_watcher, for an event on w, a watch of tree t: the tree's
     * root going away frees the tree after the delete handler is told with
     * no path; a sub-directory going away unlinks its watch, cancelling it
     * only when no other watch holds its descriptor; any other event calls
     * the handler it signals most, unless the filter rejects the path.
     */
    method DirWatcher(t: DirWatch, w: FileWatch, events: bv32, cookie: nat, name: Option<string>, host: Host)
      requires Valid()
      requires w in watches && w.watcher == Tree(t)
      modifies this, watches
      ensures Valid()
      ensures forall i :: 0 <= i < |watches| ==> watches[i] in old(watches) || fresh(watches[i])
      ensures Reacted(old(Snap()), t, w, old(w.wd), events, name, host)
    {
      WdsAt(watches);
      if events == 0 {
        trace := trace + [AssertionFailed];
        return;
      }
      if events & IN_IGNORED != 0 || events & IN_MOVE_SELF != 0 {
        Ceased(t, w);
        return;
      }
      if name.None? {
        trace := trace + [AssertionFailed];
        return;
      }
      ContentChanged(t, Join(w.path, name.value), events, host);
    }

    /**
     * The watched directory w of tree t went away: the tree's root going
     * frees the tree after the delete handler is told with no path; a
     * sub-directory going only releases its own watch.
     */
    method Ceased(t: DirWatch, w: FileWatch)
      requires Valid()
      requires w in watches && w.watcher == Tree(t)
      modifies this, watches
      ensures Valid()
      ensures w.path == t.path ==>
        trace == old(trace) + Call(t.onDelete, Deleted(t, None))
        && watches == Unowned(old(watches), t)
        && cancels == old(cancels) + OwnedWds(old(watches), old(Wds(watches)), t)
      ensures w.path != t.path ==>
        trace == old(trace) && watches == Without(old(watches), w)
        && cancels == old(cancels) + (if old(Shared(watches, w)) then [] else [old(w.wd)])
      ensures forall x :: x in old(watches) ==>
        x.wd == if Freed(t, w, x, old(Shared(watches, w))) then -1 else old(x.wd)
    {
      if w.path == t.path {
        if t.onDelete {
          trace := trace + [Deleted(t, None)];
        }
        FreeTree(t);
      } else {
        ReleaseWatch(w);
      }
    }

    /**
     * An event about the entry at path inside a directory of tree t: unless
     * the filter rejects path, the handler the event signals most is called,
     * and a new directory in a tree with subdirs is watched with everything
     * below it.
     */
    method ContentChanged(t: DirWatch, path: Path, events: bv32, host: Host)
      requires Valid()
      modifies this
      ensures Valid()
      ensures forall i :: 0 <= i < |watches| ==> watches[i] in old(watches) || fresh(watches[i])
      ensures ContentEffects(t, path, events, host, old(watches), old(trace), watches, trace)
      ensures cancels == old(cancels)
    {
      if t.filter(path) {
        return;
      }
      if events & IN_CREATE != 0 || events & IN_MOVED_TO != 0 {
        assert Classify(events) == Some(Create);
        if t.onCreate {
          trace := trace + [Created(t, path)];
        }
        if t.subdirs && path in host.fs && IsDir(host.fs[path].mode) {
          WatchNewDir(t, path, host);
        }
      } else if events & IN_MODIFY != 0 {
        assert Classify(events) == Some(Modify);
        if t.onModify {
          trace := trace + [Modified(t, path)];
        }
      } else if events & IN_DELETE != 0 || events & IN_MOVED_FROM != 0 {
        assert Classify(events) == Some(Delete);
        if t.onDelete {
          trace := trace + [Deleted(t, Some(path))];
        }
      } else {
        assert Classify(events) == None;
      }
    }

    /**
     * A directory created in (or moved into) tree t: a watch on it and on
     * every directory below it that the walk reaches, whatever the walk
     * returns.
     */
    method WatchNewDir(t: DirWatch, path: Path, host: Host)
      requires Valid()
      modifies this
      ensures Valid()
      ensures trace == old(trace) && cancels == old(cancels)
      ensures forall i :: 0 <= i < |watches| ==> watches[i] in old(watches) || fresh(watches[i])
      ensures Appended(old(watches), watches, [path] + Paths(TreeWalk(host.fs, path, t.filter).visits), t, host)
    {
      var _ := DirAddFileWatch(t, path, host);
      ghost var ws1 := watches;
      var ret := DirWalk(path, S_IFDIR, t.filter, AddDirWatch(t), host);
      EffectsCompose(AddDirWatch(t), host, [path], Paths(TreeWalk(host.fs, path, t.filter).visits),
                     old(watches), trace, ws1, trace, watches, trace);
    }

    /**
     * A sub-directory's watch going away: unlinked and freed without its
     * destructor when another watch holds the same descriptor, otherwise
     * removed and freed (the destructor then finds nothing left to do).
     */
    method ReleaseWatch(w: FileWatch)
      requires Valid()
      requires w in watches
      modifies this, w
      ensures Valid()
      ensures watches == Without(old(watches), w)
      ensures cancels == old(cancels) + (if old(Shared(watches, w)) then [] else [old(w.wd)])
      ensures w.wd == if old(Shared(watches, w)) then old(w.wd) else -1
      ensures trace == old(trace)
    {
      var found := SharesDescriptor(w);
      if found {
        watches := Without(watches, w);
      } else {
        RemoveWatch(w);
        RemoveWatch(w);
      }
    }
  }

  /** The trace invariant of Reader across one record. */
  lemma NotifyStep(ws: seq<FileWatch>, ds: seq<int>, tr: seq<Callback>, total: seq<Callback>, e: Event,
                   left: seq<Event>, later: seq<Event>)
    requires |ws| == |ds| && AllUser(ws)
    requires tr + Notifications(ws, ds, left) == total
    requires left == [e] + later
    ensures (tr + Notify(ws, ds, e)) + Notifications(ws, ds, later) == total
  {
    assert left[0] == e && left[1..] == later;
  }

  /**
   * The two checks nih_file_reader makes before taking a record from the
   * front of the buffer: a whole header, then a whole name; sz is the
   * record's size when both hold.
   */
  method TakeRecord(rest: seq<byte>) returns (r: Option<Event>, sz: nat)
    ensures r.None? <==> !HasRecord(rest)
    ensures r.None? ==> Parse(rest) == Parsed([], 0)
    ensures r.Some? ==> 0 < sz <= |rest|
    ensures r.Some? ==> Parse(rest).events == [r.value] + Parse(rest[sz..]).events
    ensures r.Some? ==> Parse(rest).consumed == sz + Parse(rest[sz..]).consumed
  {
    var len := |rest|;
    sz := HeaderSize;
    if len < sz {
      return None, sz;
    }
    sz := sz + Unsigned(WordAt(rest, 12));
    if len < sz {
      return None, sz;
    }
    r := Some(DecodeRecord(rest));
    ParseStep(rest);
  }

  /** One pass of FreeTree's loop keeps its invariant. */
  lemma FreeStep(all: seq<FileWatch>, ds: seq<int>, i: nat, t: DirWatch)
    requires i < |all| == |ds| && Distinct(all)
    ensures all[i].watcher == Tree(t) ==>
      Unowned(all[..i + 1], t) == Unowned(all[..i], t)
      && OwnedWds(all[..i + 1], ds[..i + 1], t) == OwnedWds(all[..i], ds[..i], t) + [ds[i]]
    ensures all[i].watcher != Tree(t) ==>
      Unowned(all[..i + 1], t) == Unowned(all[..i], t) + [all[i]]
      && OwnedWds(all[..i + 1], ds[..i + 1], t) == OwnedWds(all[..i], ds[..i], t)
    ensures all[i] !in Unowned(all[..i], t)
    ensures Distinct(all[i..]) && all[i..][0] == all[i] && all[i..][1..] == all[i + 1..]
  {
    assert all[..i + 1] == all[..i] + [all[i]] && ds[..i + 1] == ds[..i] + [ds[i]];
    FilterAppend(all[..i], [all[i]], (x: FileWatch) => x.watcher != Tree(t));
    OwnedWdsAppend(all[..i], ds[..i], [all[i]], [ds[i]], t);
    DistinctSplit(all, i);
  }

  /** Appending one more after two pieces. */
  lemma Regroup(a: seq<int>, b: seq<int>, x: int)
    ensures (a + b) + [x] == a + (b + [x])
  {
  }

  /** Moving the first watch of the rest of a list to the end of the part before it. */
  lemma ShiftOne(u: seq<FileWatch>, rest: seq<FileWatch>)
    requires rest != []
    ensures u + rest == (u + [rest[0]]) + rest[1..]
  {
    assert rest == [rest[0]] + rest[1..];
  }

  /** A list none of whose watches t owns is not touched by freeing t. */
  lemma NoneOwned(ws: seq<FileWatch>, t: DirWatch)
    requires forall x :: x in ws ==> x.watcher != Tree(t)
    ensures Unowned(ws, t) == ws && OwnedWds(ws, Wds(ws), t) == []
  {
    FilterAll(ws, (x: FileWatch) => x.watcher != Tree(t));
    NoneOwnedWds(ws, Wds(ws), t);
  }

  lemma {:induction false} NoneOwnedWds(ws: seq<FileWatch>, ds: seq<int>, t: DirWatch)
    requires |ws| == |ds|
    requires forall x :: x in ws ==> x.watcher != Tree(t)
    ensures OwnedWds(ws, ds, t) == []
  {
    if ws != [] {
      assert forall x :: x in ws[1..] ==> x in ws;
      NoneOwnedWds(ws[1..], ds[1..], t);
    }
  }

  /**
   * Freeing a new tree after its watches were appended to a list it owned
   * nothing in gives back that list and cancels the new watches'
   * descriptors, in order.
   */
  lemma TornDown(ws0: seq<FileWatch>, ws: seq<FileWatch>, ps: seq<Path>, t: DirWatch, host: Host)
    requires Appended(ws0, ws, ps, t, host)
    requires forall x :: x in ws0 ==> x.watcher != Tree(t)
    ensures Unowned(ws, t) == ws0
    ensures OwnedWds(ws, Wds(ws), t) == Descriptors(host, Watchable(host, ps))
  {
    var added := ws[|ws0|..];
    assert ws == ws0 + added;
    AddedTorn(added, ps, t, host);
    FilterAppend(ws0, added, (x: FileWatch) => x.watcher != Tree(t));
    FilterAll(ws0, (x: FileWatch) => x.watcher != Tree(t));
    WdsAppend(ws0, added);
    OwnedWdsAppend(ws0, Wds(ws0), added, Wds(added), t);
    NoneOwnedWds(ws0, Wds(ws0), t);
  }

  /** The watches a tree added are all its own, and hold the descriptors the kernel granted, in order. */
  lemma {:induction false} AddedTorn(added: seq<FileWatch>, ps: seq<Path>, t: DirWatch, host: Host)
    requires Added(added, ps, t, host)
    ensures Unowned(added, t) == []
    ensures OwnedWds(added, Wds(added), t) == Descriptors(host, Watchable(host, ps))
  {
    if ps != [] {
      var gs := Watchable(host, ps[1..]);
      if Granted(host, ps[0]) {
        AddedTorn(added[1..], ps[1..], t, host);
        assert Wds(added)[1..] == Wds(added[1..]);
        assert Watchable(host, ps) == [ps[0]] + gs;
        assert ([ps[0]] + gs)[0] == ps[0] && ([ps[0]] + gs)[1..] == gs;
      } else {
        AddedTorn(added, ps[1..], t, host);
        assert Watchable(host, ps) == gs;
      }
    }
  }
}
