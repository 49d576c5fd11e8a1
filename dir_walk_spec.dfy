/**
 * What nih_dir_walk does, as a function of the file tree: the entries it
 * hands to the visitor, in order, the sub-directories it descends into, and
 * the value it returns.  The visitor is a function from path to result and
 * the filter a predicate on paths (a NULL filter is the one that is always
 * false).  The types argument enters as the test it is used for — whether
 * an entry's st_mode is wanted — which for nih_dir_walk is Selects(types).
 */
module DirWalkSpec {
  import opened Wrappers
  import opened FileSystem

  /** The test nih_dir_walk applies to st_mode: some bit of types is set in it. */
  function Selects(types: bv32): bv32 -> bool {
    mode => mode & types != 0
  }

  /** One readdir entry: the directory it was listed in and its name there. */
  datatype Entry = Entry(dir: Path, name: string)

  function PathOf(e: Entry): (p: Path)
    ensures |p| > |e.dir|
  {
    Join(e.dir, e.name)
  }

  function Paths(es: seq<Entry>): (ps: seq<Path>)
    ensures |ps| == |es|
  {
    if es == [] then [] else [PathOf(es[0])] + Paths(es[1..])
  }

  /** Paths lists the path of each entry, in order. */
  lemma {:induction false} PathsAt(es: seq<Entry>)
    ensures forall i :: 0 <= i < |es| ==> Paths(es)[i] == PathOf(es[i])
  {
    if es != [] {
      PathsAt(es[1..]);
    }
  }

  /**
   * The result of a walk: the value returned, the entries the visitor was
   * called for, and the entries descended into (nih_dir_walk called on
   * them), each in the order it happened.
   */
  datatype Outcome = Outcome(ret: int, visits: seq<Entry>, entered: seq<Entry>)

  function Prepend(v: seq<Entry>, d: seq<Entry>, o: Outcome): Outcome {
    Outcome(o.ret, v + o.visits, d + o.entered)
  }

  /** opendir succeeds on p. */
  predicate Openable(fs: map<Path, Inode>, p: Path) {
    p in fs && fs[p].listing.Some?
  }

  /** The paths of the tree longer than p: what is left to descend into below p. */
  function Longer(fs: map<Path, Inode>, p: Path): set<Path> {
    set q | q in fs && |q| > |p|
  }

  lemma LongerShrinks(fs: map<Path, Inode>, p: Path, q: Path)
    requires q in fs && |q| > |p|
    ensures Longer(fs, q) < Longer(fs, p)
  {
    assert q in Longer(fs, p) && q !in Longer(fs, q);
  }

  /**
   * The value a walk can end with, given the value its loop started from:
   * that value, 0 (a sub-walk that ran to the end), -1 (a directory that
   * could not be opened) or what the visitor returned for one of the
   * entries it was called for.
   */
  predicate Returned(o: Outcome, start: int, results: Path -> int) {
    o.ret == start || o.ret == 0 || o.ret == -1 || exists e :: e in o.visits && o.ret == results(PathOf(e))
  }

  /**
   * nih_dir_walk (path, types, filter, visitor), with wanted == Selects(types): -1 when path cannot be opened.
   * It returns 0, -1 or a visitor's result.
   */
  function Walk(fs: map<Path, Inode>, path: Path, wanted: bv32 -> bool, filter: Path -> bool, results: Path -> int): (r: Outcome)
    ensures Returned(r, 0, results)
    decreases Longer(fs, path), 1
  {
    if Openable(fs, path) then WalkEntries(fs, path, fs[path].listing.value, wanted, filter, results, 0)
    else Outcome(-1, [], [])
  }

  /**
   * The readdir loop of nih_dir_walk over the names still to be read, with
   * ret the value the loop's ret variable holds so far.
   */
  function WalkEntries(fs: map<Path, Inode>, dir: Path, names: seq<string>, wanted: bv32 -> bool,
                       filter: Path -> bool, results: Path -> int, ret: int): (r: Outcome)
    ensures Returned(r, ret, results)
    decreases Longer(fs, dir), 0, |names|
  {
    if names == [] then Outcome(ret, [], [])
    else if IsDots(names[0]) then WalkEntries(fs, dir, names[1..], wanted, filter, results, ret)
    else
      var e := Entry(dir, names[0]);
      var sub := PathOf(e);
      if filter(sub) || sub !in fs then WalkEntries(fs, dir, names[1..], wanted, filter, results, ret)
      else
        var mode := fs[sub].mode;
        var visited := wanted(mode);
        if visited && results(sub) < 0 then Outcome(results(sub), [e], [])
        else
          var v := if visited then [e] else [];
          var r := if visited then results(sub) else ret;
          if IsDir(mode) then
            LongerShrinks(fs, dir, sub);
            var d := Walk(fs, sub, wanted, filter, results);
            if d.ret < 0 then Outcome(d.ret, v + d.visits, [e] + d.entered)
            else Prepend(v + d.visits, [e] + d.entered, WalkEntries(fs, dir, names[1..], wanted, filter, results, d.ret))
          else Prepend(v, [], WalkEntries(fs, dir, names[1..], wanted, filter, results, r))
  }

  /* One step of the readdir loop, one lemma per way an entry can go. */

  /** "." and "..", filtered paths and paths stat fails on are passed over. */
  lemma SkipStep(fs: map<Path, Inode>, dir: Path, names: seq<string>, wanted: bv32 -> bool,
                 filter: Path -> bool, results: Path -> int, ret: int)
    requires names != []
    requires var sub := PathOf(Entry(dir, names[0])); IsDots(names[0]) || filter(sub) || sub !in fs
    ensures WalkEntries(fs, dir, names, wanted, filter, results, ret)
         == WalkEntries(fs, dir, names[1..], wanted, filter, results, ret)
  {
  }

  /** A negative visitor result ends the walk with that result. */
  lemma StopStep(fs: map<Path, Inode>, dir: Path, names: seq<string>, wanted: bv32 -> bool,
                 filter: Path -> bool, results: Path -> int, ret: int)
    requires names != [] && !IsDots(names[0])
    requires var sub := PathOf(Entry(dir, names[0]));
      !filter(sub) && sub in fs && wanted(fs[sub].mode) && results(sub) < 0
    ensures var sub := PathOf(Entry(dir, names[0]));
      WalkEntries(fs, dir, names, wanted, filter, results, ret) == Outcome(results(sub), [Entry(dir, names[0])], [])
  {
  }

  /** An entry that is not a directory: visited if its type is asked for, never descended into. */
  lemma LeafStep(fs: map<Path, Inode>, dir: Path, names: seq<string>, wanted: bv32 -> bool,
                 filter: Path -> bool, results: Path -> int, ret: int)
    requires names != [] && !IsDots(names[0])
    requires var sub := PathOf(Entry(dir, names[0]));
      !filter(sub) && sub in fs && !(wanted(fs[sub].mode) && results(sub) < 0) && !IsDir(fs[sub].mode)
    ensures var e := Entry(dir, names[0]); var sub := PathOf(e);
      var visited := wanted(fs[sub].mode);
      WalkEntries(fs, dir, names, wanted, filter, results, ret)
      == Prepend(if visited then [e] else [], [],
                 WalkEntries(fs, dir, names[1..], wanted, filter, results, if visited then results(sub) else ret))
  {
  }

  /** A directory: visited if asked for, then walked; a failed sub-walk ends the walk with its result. */
  lemma DirStep(fs: map<Path, Inode>, dir: Path, names: seq<string>, wanted: bv32 -> bool,
                filter: Path -> bool, results: Path -> int, ret: int)
    requires names != [] && !IsDots(names[0])
    requires var sub := PathOf(Entry(dir, names[0]));
      !filter(sub) && sub in fs && !(wanted(fs[sub].mode) && results(sub) < 0) && IsDir(fs[sub].mode)
    ensures var e := Entry(dir, names[0]); var sub := PathOf(e);
      var v := if wanted(fs[sub].mode) then [e] else [];
      var d := Walk(fs, sub, wanted, filter, results);
      WalkEntries(fs, dir, names, wanted, filter, results, ret)
      == if d.ret < 0 then Prepend(v + d.visits, [e] + d.entered, Outcome(d.ret, [], []))
         else Prepend(v + d.visits, [e] + d.entered, WalkEntries(fs, dir, names[1..], wanted, filter, results, d.ret))
  {
  }

  /** A readdir entry that is neither "." nor "..", whose path stat accepts and the filter lets through. */
  predicate Admitted(fs: map<Path, Inode>, filter: Path -> bool, e: Entry) {
    Openable(fs, e.dir) && e.name in fs[e.dir].listing.value && !IsDots(e.name)
    && PathOf(e) in fs && !filter(PathOf(e))
  }

  /** Every entry of o lies in below, or in a directory o descended into. */
  predicate Rooted(below: Path, o: Outcome) {
    (forall e :: e in o.visits ==> e.dir == below || e.dir in Paths(o.entered))
    && (forall e :: e in o.entered ==> e.dir == below || e.dir in Paths(o.entered))
  }

  /**
   * The visitor only saw admitted entries whose st_mode is wanted,
   * the walk only descended into admitted directories, and each of them
   * lies in below or in a directory already descended into.
   */
  predicate Sound(fs: map<Path, Inode>, wanted: bv32 -> bool, filter: Path -> bool, below: Path, o: Outcome) {
    (forall e :: e in o.visits ==> Admitted(fs, filter, e) && wanted(fs[PathOf(e)].mode))
    && (forall e :: e in o.entered ==> Admitted(fs, filter, e) && IsDir(fs[PathOf(e)].mode))
    && Rooted(below, o)
  }

  /**
   * So "." and "..", filtered paths and everything below a filtered path are
   * never visited nor entered, and the visitor sees only the types asked for.
   */
  lemma {:induction false} WalkAdmitted(fs: map<Path, Inode>, path: Path, wanted: bv32 -> bool, filter: Path -> bool, results: Path -> int)
    ensures Sound(fs, wanted, filter, path, Walk(fs, path, wanted, filter, results))
    decreases Longer(fs, path), 1
  {
    if Openable(fs, path) {
      EntriesAdmitted(fs, path, fs[path].listing.value, wanted, filter, results, 0);
    }
  }

  lemma {:induction false} EntriesAdmitted(fs: map<Path, Inode>, dir: Path, names: seq<string>, wanted: bv32 -> bool,
                                           filter: Path -> bool, results: Path -> int, ret: int)
    requires Openable(fs, dir)
    requires forall n :: n in names ==> n in fs[dir].listing.value
    ensures Sound(fs, wanted, filter, dir, WalkEntries(fs, dir, names, wanted, filter, results, ret))
    decreases Longer(fs, dir), 0, |names|
  {
    if names != [] {
      var sub := PathOf(Entry(dir, names[0]));
      if IsDots(names[0]) || filter(sub) || sub !in fs {
        SkipStep(fs, dir, names, wanted, filter, results, ret);
        EntriesAdmitted(fs, dir, names[1..], wanted, filter, results, ret);
      } else if wanted(fs[sub].mode) && results(sub) < 0 {
        AdmittedStop(fs, dir, names, wanted, filter, results, ret);
      } else if IsDir(fs[sub].mode) {
        LongerShrinks(fs, dir, sub);
        WalkAdmitted(fs, sub, wanted, filter, results);
        var d := Walk(fs, sub, wanted, filter, results);
        if d.ret >= 0 {
          EntriesAdmitted(fs, dir, names[1..], wanted, filter, results, d.ret);
        }
        AdmittedDir(fs, dir, names, wanted, filter, results, ret);
      } else {
        var r := if wanted(fs[sub].mode) then results(sub) else ret;
        EntriesAdmitted(fs, dir, names[1..], wanted, filter, results, r);
        AdmittedLeaf(fs, dir, names, wanted, filter, results, ret);
      }
    }
  }

  lemma AdmittedStop(fs: map<Path, Inode>, dir: Path, names: seq<string>, wanted: bv32 -> bool,
                     filter: Path -> bool, results: Path -> int, ret: int)
    requires Openable(fs, dir) && names != [] && names[0] in fs[dir].listing.value && !IsDots(names[0])
    requires var sub := PathOf(Entry(dir, names[0]));
      !filter(sub) && sub in fs && wanted(fs[sub].mode) && results(sub) < 0
    ensures Sound(fs, wanted, filter, dir, WalkEntries(fs, dir, names, wanted, filter, results, ret))
  {
    var e := Entry(dir, names[0]);
    StopStep(fs, dir, names, wanted, filter, results, ret);
    SoundStep(fs, wanted, filter, e, [e], [], Outcome(results(PathOf(e)), [], []),
              WalkEntries(fs, dir, names, wanted, filter, results, ret));
  }

  lemma AdmittedLeaf(fs: map<Path, Inode>, dir: Path, names: seq<string>, wanted: bv32 -> bool,
                     filter: Path -> bool, results: Path -> int, ret: int)
    requires Openable(fs, dir) && names != [] && names[0] in fs[dir].listing.value && !IsDots(names[0])
    requires var sub := PathOf(Entry(dir, names[0]));
      !filter(sub) && sub in fs && !(wanted(fs[sub].mode) && results(sub) < 0) && !IsDir(fs[sub].mode)
    requires var sub := PathOf(Entry(dir, names[0]));
      Sound(fs, wanted, filter, dir, WalkEntries(fs, dir, names[1..], wanted, filter, results,
                                                if wanted(fs[sub].mode) then results(sub) else ret))
    ensures Sound(fs, wanted, filter, dir, WalkEntries(fs, dir, names, wanted, filter, results, ret))
  {
    var e := Entry(dir, names[0]);
    var visited := wanted(fs[PathOf(e)].mode);
    var rest := WalkEntries(fs, dir, names[1..], wanted, filter, results, if visited then results(PathOf(e)) else ret);
    LeafStep(fs, dir, names, wanted, filter, results, ret);
    SoundStep(fs, wanted, filter, e, if visited then [e] else [], [], rest,
              WalkEntries(fs, dir, names, wanted, filter, results, ret));
  }

  lemma AdmittedDir(fs: map<Path, Inode>, dir: Path, names: seq<string>, wanted: bv32 -> bool,
                    filter: Path -> bool, results: Path -> int, ret: int)
    requires Openable(fs, dir) && names != [] && names[0] in fs[dir].listing.value && !IsDots(names[0])
    requires var sub := PathOf(Entry(dir, names[0]));
      !filter(sub) && sub in fs && !(wanted(fs[sub].mode) && results(sub) < 0) && IsDir(fs[sub].mode)
    requires var sub := PathOf(Entry(dir, names[0]));
      sub in fs && Sound(fs, wanted, filter, sub, Walk(fs, sub, wanted, filter, results))
    requires var sub := PathOf(Entry(dir, names[0]));
      sub in fs && Walk(fs, sub, wanted, filter, results).ret >= 0 ==>
      Sound(fs, wanted, filter, dir, WalkEntries(fs, dir, names[1..], wanted, filter, results, Walk(fs, sub, wanted, filter, results).ret))
    ensures Sound(fs, wanted, filter, dir, WalkEntries(fs, dir, names, wanted, filter, results, ret))
  {
    var e := Entry(dir, names[0]);
    var v := if wanted(fs[PathOf(e)].mode) then [e] else [];
    var d := Walk(fs, PathOf(e), wanted, filter, results);
    DirStep(fs, dir, names, wanted, filter, results, ret);
    if d.ret < 0 {
      SoundEnter(fs, wanted, filter, e, v, d, Outcome(d.ret, [], []));
    } else {
      SoundEnter(fs, wanted, filter, e, v, d, WalkEntries(fs, dir, names[1..], wanted, filter, results, d.ret));
    }
  }

  /** An entry handed to the visitor (or not) in front of a sound rest keeps it sound. */
  lemma SoundStep(fs: map<Path, Inode>, wanted: bv32 -> bool, filter: Path -> bool, e: Entry, v: seq<Entry>,
                  d: seq<Entry>, rest: Outcome, o: Outcome)
    requires Admitted(fs, filter, e) && d == []
    requires v == [] || (v == [e] && wanted(fs[PathOf(e)].mode))
    requires Sound(fs, wanted, filter, e.dir, rest)
    requires o == Prepend(v, d, rest)
    ensures Sound(fs, wanted, filter, e.dir, o)
  {
    assert o.entered == rest.entered;
    forall x | x in o.visits
      ensures x.dir == e.dir || x.dir in Paths(o.entered)
    {
      if x !in v {
        assert x in rest.visits;
      }
    }
  }

  /** Descending into e, after possibly visiting it, in front of a sound rest keeps it sound. */
  lemma SoundEnter(fs: map<Path, Inode>, wanted: bv32 -> bool, filter: Path -> bool, e: Entry, v: seq<Entry>,
                   d: Outcome, rest: Outcome)
    requires Admitted(fs, filter, e) && IsDir(fs[PathOf(e)].mode)
    requires v == [] || (v == [e] && wanted(fs[PathOf(e)].mode))
    requires Sound(fs, wanted, filter, PathOf(e), d)
    requires Sound(fs, wanted, filter, e.dir, rest)
    ensures Sound(fs, wanted, filter, e.dir, Prepend(v + d.visits, [e] + d.entered, rest))
  {
    var o := Prepend(v + d.visits, [e] + d.entered, rest);
    PathsAppend([e], d.entered);
    PathsAppend([e] + d.entered, rest.entered);
    assert PathOf(e) in Paths(o.entered);
    forall x | x in o.entered || x in o.visits
      ensures x.dir == e.dir || x.dir in Paths(o.entered)
    {
      if x in d.entered || x in d.visits {
        assert x.dir == PathOf(e) || x.dir in Paths(d.entered);
      } else if x in rest.entered || x in rest.visits {
        assert x.dir == e.dir || x.dir in Paths(rest.entered);
      }
    }
  }

  lemma {:induction false} PathsAppend(a: seq<Entry>, b: seq<Entry>)
    ensures Paths(a + b) == Paths(a) + Paths(b)
  {
    if a == [] {
      assert a + b == b;
    } else {
      assert (a + b)[0] == a[0] && (a + b)[1..] == a[1..] + b;
      PathsAppend(a[1..], b);
    }
  }

  /**
   * Of the names listed, every admitted one was visited when its type is
   * asked for and descended into when it is a directory.
   */
  predicate CoversNames(fs: map<Path, Inode>, wanted: bv32 -> bool, filter: Path -> bool,
                        vs: seq<Entry>, en: seq<Entry>, dir: Path, names: seq<string>) {
    forall n :: n in names && !IsDots(n) && PathOf(Entry(dir, n)) in fs && !filter(PathOf(Entry(dir, n))) ==>
      (wanted(fs[PathOf(Entry(dir, n))].mode) ==> Entry(dir, n) in vs)
      && (IsDir(fs[PathOf(Entry(dir, n))].mode) ==> Entry(dir, n) in en)
  }

  /** dir was opened and all of its admitted entries were handled. */
  predicate Covered(fs: map<Path, Inode>, wanted: bv32 -> bool, filter: Path -> bool, vs: seq<Entry>, en: seq<Entry>, dir: Path) {
    Openable(fs, dir) && CoversNames(fs, wanted, filter, vs, en, dir, fs[dir].listing.value)
  }

  /** Every directory descended into was opened and fully handled. */
  predicate EnteredCovered(fs: map<Path, Inode>, wanted: bv32 -> bool, filter: Path -> bool, o: Outcome) {
    forall e :: e in o.entered ==> Covered(fs, wanted, filter, o.visits, o.entered, PathOf(e))
  }

  predicate Includes(small: seq<Entry>, large: seq<Entry>) {
    forall x :: x in small ==> x in large
  }

  lemma CoversMono(fs: map<Path, Inode>, wanted: bv32 -> bool, filter: Path -> bool, vs: seq<Entry>, en: seq<Entry>,
                   vs2: seq<Entry>, en2: seq<Entry>, dir: Path, names: seq<string>)
    requires CoversNames(fs, wanted, filter, vs, en, dir, names)
    requires Includes(vs, vs2) && Includes(en, en2)
    ensures CoversNames(fs, wanted, filter, vs2, en2, dir, names)
  {
  }

  lemma EnteredMono(fs: map<Path, Inode>, wanted: bv32 -> bool, filter: Path -> bool, o: Outcome, o2: Outcome)
    requires EnteredCovered(fs, wanted, filter, o)
    requires Includes(o.visits, o2.visits) && Includes(o.entered, o2.entered)
    ensures forall e :: e in o.entered ==> Covered(fs, wanted, filter, o2.visits, o2.entered, PathOf(e))
  {
    forall e | e in o.entered
      ensures Covered(fs, wanted, filter, o2.visits, o2.entered, PathOf(e))
    {
      var d := PathOf(e);
      CoversMono(fs, wanted, filter, o.visits, o.entered, o2.visits, o2.entered, d, fs[d].listing.value);
    }
  }

  /**
   * A walk that returns a non-negative value went everywhere: the root and
   * every directory it descended into could be opened, and every admitted
   * entry of each was visited when its type is asked for and descended
   * into when it is a directory — leaving S_IFDIR out of types does not
   * stop the descent.
   */
  predicate WentEverywhere(fs: map<Path, Inode>, path: Path, wanted: bv32 -> bool, filter: Path -> bool, results: Path -> int) {
    var o := Walk(fs, path, wanted, filter, results);
    o.ret >= 0 ==> Covered(fs, wanted, filter, o.visits, o.entered, path) && EnteredCovered(fs, wanted, filter, o)
  }

  /** The part of the walk over names, started with ret, went everywhere unless it failed. */
  predicate CompleteFrom(fs: map<Path, Inode>, dir: Path, names: seq<string>, wanted: bv32 -> bool,
                         filter: Path -> bool, results: Path -> int, ret: int) {
    var o := WalkEntries(fs, dir, names, wanted, filter, results, ret);
    o.ret >= 0 ==> CoversNames(fs, wanted, filter, o.visits, o.entered, dir, names) && EnteredCovered(fs, wanted, filter, o)
  }

  /** The value of ret the readdir loop goes on with after the first name, when it goes on. */
  function NextRet(fs: map<Path, Inode>, dir: Path, names: seq<string>, wanted: bv32 -> bool,
                   filter: Path -> bool, results: Path -> int, ret: int): int
    requires names != []
  {
    var sub := PathOf(Entry(dir, names[0]));
    if IsDots(names[0]) || filter(sub) || sub !in fs then ret
    else if IsDir(fs[sub].mode) then Walk(fs, sub, wanted, filter, results).ret
    else if wanted(fs[sub].mode) then results(sub)
    else ret
  }

  lemma {:induction false} WalkComplete(fs: map<Path, Inode>, path: Path, wanted: bv32 -> bool, filter: Path -> bool, results: Path -> int)
    ensures WentEverywhere(fs, path, wanted, filter, results)
    decreases Longer(fs, path), 1
  {
    if Openable(fs, path) {
      EntriesComplete(fs, path, fs[path].listing.value, wanted, filter, results, 0);
    }
  }

  lemma {:induction false} EntriesComplete(fs: map<Path, Inode>, dir: Path, names: seq<string>, wanted: bv32 -> bool,
                                           filter: Path -> bool, results: Path -> int, ret: int)
    ensures CompleteFrom(fs, dir, names, wanted, filter, results, ret)
    decreases Longer(fs, dir), 0, |names|
  {
    if names != [] {
      var sub := PathOf(Entry(dir, names[0]));
      if sub in fs {
        LongerShrinks(fs, dir, sub);
        WalkComplete(fs, sub, wanted, filter, results);
      }
      EntriesComplete(fs, dir, names[1..], wanted, filter, results, NextRet(fs, dir, names, wanted, filter, results, ret));
      CompleteStep(fs, dir, names, wanted, filter, results, ret);
    }
  }

  /** One step of the readdir loop keeps the walk complete. */
  lemma CompleteStep(fs: map<Path, Inode>, dir: Path, names: seq<string>, wanted: bv32 -> bool,
                     filter: Path -> bool, results: Path -> int, ret: int)
    requires names != []
    requires var sub := PathOf(Entry(dir, names[0])); sub in fs ==> WentEverywhere(fs, sub, wanted, filter, results)
    requires CompleteFrom(fs, dir, names[1..], wanted, filter, results, NextRet(fs, dir, names, wanted, filter, results, ret))
    ensures CompleteFrom(fs, dir, names, wanted, filter, results, ret)
  {
    var sub := PathOf(Entry(dir, names[0]));
    if IsDots(names[0]) || filter(sub) || sub !in fs {
      CompleteSkip(fs, dir, names, wanted, filter, results, ret);
    } else {
      CompleteAdmitted(fs, dir, names, wanted, filter, results, ret);
    }
  }

  lemma CompleteAdmitted(fs: map<Path, Inode>, dir: Path, names: seq<string>, wanted: bv32 -> bool,
                         filter: Path -> bool, results: Path -> int, ret: int)
    requires names != [] && !IsDots(names[0])
    requires var sub := PathOf(Entry(dir, names[0])); !filter(sub) && sub in fs
    requires var sub := PathOf(Entry(dir, names[0])); sub in fs ==> WentEverywhere(fs, sub, wanted, filter, results)
    requires CompleteFrom(fs, dir, names[1..], wanted, filter, results, NextRet(fs, dir, names, wanted, filter, results, ret))
    ensures CompleteFrom(fs, dir, names, wanted, filter, results, ret)
  {
    var sub := PathOf(Entry(dir, names[0]));
    if wanted(fs[sub].mode) && results(sub) < 0 {
      StopStep(fs, dir, names, wanted, filter, results, ret);
    } else {
      CompleteGoOn(fs, dir, names, wanted, filter, results, ret);
    }
  }

  lemma CompleteGoOn(fs: map<Path, Inode>, dir: Path, names: seq<string>, wanted: bv32 -> bool,
                     filter: Path -> bool, results: Path -> int, ret: int)
    requires names != [] && !IsDots(names[0])
    requires var sub := PathOf(Entry(dir, names[0]));
      !filter(sub) && sub in fs && !(wanted(fs[sub].mode) && results(sub) < 0)
    requires var sub := PathOf(Entry(dir, names[0])); sub in fs ==> WentEverywhere(fs, sub, wanted, filter, results)
    requires CompleteFrom(fs, dir, names[1..], wanted, filter, results, NextRet(fs, dir, names, wanted, filter, results, ret))
    ensures CompleteFrom(fs, dir, names, wanted, filter, results, ret)
  {
    if IsDir(fs[PathOf(Entry(dir, names[0]))].mode) {
      CompleteDir(fs, dir, names, wanted, filter, results, ret);
    } else {
      CompleteLeaf(fs, dir, names, wanted, filter, results, ret);
    }
  }

  /**
   * Handling the first name (by visiting it in v and entering it in den as
   * its type asks) in front of an outcome that covers the other names
   * covers them all.
   */
  lemma CoverFront(fs: map<Path, Inode>, wanted: bv32 -> bool, filter: Path -> bool, dir: Path, names: seq<string>,
                   v: seq<Entry>, den: seq<Entry>, rest: Outcome, o: Outcome)
    requires names != [] && o == Prepend(v, den, rest)
    requires var e := Entry(dir, names[0]); var sub := PathOf(e);
      !IsDots(names[0]) && sub in fs && !filter(sub) ==>
        (wanted(fs[sub].mode) ==> e in v) && (IsDir(fs[sub].mode) ==> e in den)
    requires CoversNames(fs, wanted, filter, rest.visits, rest.entered, dir, names[1..])
    requires EnteredCovered(fs, wanted, filter, rest)
    requires forall x :: x in den ==> Covered(fs, wanted, filter, o.visits, o.entered, PathOf(x))
    ensures CoversNames(fs, wanted, filter, o.visits, o.entered, dir, names)
    ensures EnteredCovered(fs, wanted, filter, o)
  {
    assert Includes(rest.visits, o.visits) && Includes(rest.entered, o.entered);
    CoversMono(fs, wanted, filter, rest.visits, rest.entered, o.visits, o.entered, dir, names[1..]);
    EnteredMono(fs, wanted, filter, rest, o);
    forall n | n in names && n !in names[1..]
      ensures n == names[0]
    {
    }
  }

  lemma CompleteSkip(fs: map<Path, Inode>, dir: Path, names: seq<string>, wanted: bv32 -> bool,
                     filter: Path -> bool, results: Path -> int, ret: int)
    requires names != []
    requires var sub := PathOf(Entry(dir, names[0])); IsDots(names[0]) || filter(sub) || sub !in fs
    requires CompleteFrom(fs, dir, names[1..], wanted, filter, results, NextRet(fs, dir, names, wanted, filter, results, ret))
    ensures CompleteFrom(fs, dir, names, wanted, filter, results, ret)
  {
    var rest := WalkEntries(fs, dir, names[1..], wanted, filter, results, ret);
    assert NextRet(fs, dir, names, wanted, filter, results, ret) == ret;
    SkipStep(fs, dir, names, wanted, filter, results, ret);
    if rest.ret >= 0 {
      CoverFront(fs, wanted, filter, dir, names, [], [], rest, Prepend([], [], rest));
    }
  }

  lemma CompleteLeaf(fs: map<Path, Inode>, dir: Path, names: seq<string>, wanted: bv32 -> bool,
                     filter: Path -> bool, results: Path -> int, ret: int)
    requires names != [] && !IsDots(names[0])
    requires var sub := PathOf(Entry(dir, names[0]));
      !filter(sub) && sub in fs && !(wanted(fs[sub].mode) && results(sub) < 0) && !IsDir(fs[sub].mode)
    requires CompleteFrom(fs, dir, names[1..], wanted, filter, results, NextRet(fs, dir, names, wanted, filter, results, ret))
    ensures CompleteFrom(fs, dir, names, wanted, filter, results, ret)
  {
    var e := Entry(dir, names[0]);
    var visited := wanted(fs[PathOf(e)].mode);
    var r := if visited then results(PathOf(e)) else ret;
    assert NextRet(fs, dir, names, wanted, filter, results, ret) == r;
    var rest := WalkEntries(fs, dir, names[1..], wanted, filter, results, r);
    LeafStep(fs, dir, names, wanted, filter, results, ret);
    if rest.ret >= 0 {
      CoverFront(fs, wanted, filter, dir, names, if visited then [e] else [], [], rest,
                 Prepend(if visited then [e] else [], [], rest));
    }
  }

  lemma CompleteDir(fs: map<Path, Inode>, dir: Path, names: seq<string>, wanted: bv32 -> bool,
                    filter: Path -> bool, results: Path -> int, ret: int)
    requires names != [] && !IsDots(names[0])
    requires var sub := PathOf(Entry(dir, names[0]));
      !filter(sub) && sub in fs && !(wanted(fs[sub].mode) && results(sub) < 0) && IsDir(fs[sub].mode)
    requires var sub := PathOf(Entry(dir, names[0])); sub in fs ==> WentEverywhere(fs, sub, wanted, filter, results)
    requires CompleteFrom(fs, dir, names[1..], wanted, filter, results, NextRet(fs, dir, names, wanted, filter, results, ret))
    ensures CompleteFrom(fs, dir, names, wanted, filter, results, ret)
  {
    var e := Entry(dir, names[0]);
    var sub := PathOf(e);
    var v := if wanted(fs[sub].mode) then [e] else [];
    var d := Walk(fs, sub, wanted, filter, results);
    assert NextRet(fs, dir, names, wanted, filter, results, ret) == d.ret;
    var rest := WalkEntries(fs, dir, names[1..], wanted, filter, results, d.ret);
    DirStep(fs, dir, names, wanted, filter, results, ret);
    if d.ret >= 0 && rest.ret >= 0 {
      var o := Prepend(v + d.visits, [e] + d.entered, rest);
      EnteredFront(fs, wanted, filter, e, d, o);
      CoverFront(fs, wanted, filter, dir, names, v + d.visits, [e] + d.entered, rest, o);
    }
  }

  /** A sub-walk that covered its directory and everything it entered stays covered inside a larger outcome. */
  lemma EnteredFront(fs: map<Path, Inode>, wanted: bv32 -> bool, filter: Path -> bool, e: Entry, d: Outcome, o: Outcome)
    requires Covered(fs, wanted, filter, d.visits, d.entered, PathOf(e)) && EnteredCovered(fs, wanted, filter, d)
    requires Includes(d.visits, o.visits) && Includes(d.entered, o.entered)
    ensures forall x :: x in [e] + d.entered ==> Covered(fs, wanted, filter, o.visits, o.entered, PathOf(x))
  {
    CoversMono(fs, wanted, filter, d.visits, d.entered, o.visits, o.entered, PathOf(e), fs[PathOf(e)].listing.value);
    EnteredMono(fs, wanted, filter, d, o);
  }

  function Last<T>(s: seq<T>): T
    requires s != []
  {
    s[|s| - 1]
  }

  /**
   * The visitor returned a non-negative value for every entry but the last
   * one it saw, and for that one too unless the walk failed.
   */
  predicate VisitsBeforeFailure(results: Path -> int, o: Outcome) {
    (forall i :: 0 <= i < |o.visits| - 1 ==> results(PathOf(o.visits[i])) >= 0)
    && (o.ret >= 0 ==> forall i :: 0 <= i < |o.visits| ==> results(PathOf(o.visits[i])) >= 0)
  }

  /**
   * A failed readdir loop failed for one of two reasons: the visitor's last
   * result, which is the value returned, was negative; or the returned -1 is
   * that of the last directory descended into, which could not be opened.
   */
  predicate EntriesCause(fs: map<Path, Inode>, results: Path -> int, o: Outcome) {
    o.ret < 0 ==>
      (o.visits != [] && o.ret == results(PathOf(Last(o.visits))))
      || (o.ret == -1 && o.entered != [] && !Openable(fs, PathOf(Last(o.entered))))
  }

  /** A failed walk failed as a readdir loop does, or because its root could not be opened. */
  predicate WalkCause(fs: map<Path, Inode>, results: Path -> int, path: Path, o: Outcome) {
    EntriesCause(fs, results, o) || (o == Outcome(-1, [], []) && !Openable(fs, path))
  }

  /**
   * nih_dir_walk stops at the first negative result: the visitor is not
   * called again after it returned a negative value, and a negative return
   * is that value or the -1 of a directory that could not be opened.
   */
  lemma {:induction false} WalkFailure(fs: map<Path, Inode>, path: Path, wanted: bv32 -> bool, filter: Path -> bool, results: Path -> int)
    ensures var o := Walk(fs, path, wanted, filter, results);
      VisitsBeforeFailure(results, o) && WalkCause(fs, results, path, o)
    decreases Longer(fs, path), 1
  {
    if Openable(fs, path) {
      EntriesFailure(fs, path, fs[path].listing.value, wanted, filter, results, 0);
    }
  }

  predicate FailsRight(fs: map<Path, Inode>, dir: Path, names: seq<string>, wanted: bv32 -> bool,
                       filter: Path -> bool, results: Path -> int, ret: int) {
    var o := WalkEntries(fs, dir, names, wanted, filter, results, ret);
    VisitsBeforeFailure(results, o) && EntriesCause(fs, results, o)
  }

  predicate WalkFailsRight(fs: map<Path, Inode>, path: Path, wanted: bv32 -> bool, filter: Path -> bool, results: Path -> int) {
    var o := Walk(fs, path, wanted, filter, results);
    VisitsBeforeFailure(results, o) && WalkCause(fs, results, path, o)
  }

  lemma {:induction false} EntriesFailure(fs: map<Path, Inode>, dir: Path, names: seq<string>, wanted: bv32 -> bool,
                                          filter: Path -> bool, results: Path -> int, ret: int)
    requires ret >= 0
    ensures FailsRight(fs, dir, names, wanted, filter, results, ret)
    decreases Longer(fs, dir), 0, |names|
  {
    if names != [] {
      var sub := PathOf(Entry(dir, names[0]));
      if sub in fs {
        LongerShrinks(fs, dir, sub);
        WalkFailure(fs, sub, wanted, filter, results);
      }
      var next := NextRet(fs, dir, names, wanted, filter, results, ret);
      if next >= 0 {
        EntriesFailure(fs, dir, names[1..], wanted, filter, results, next);
      }
      FailureStep(fs, dir, names, wanted, filter, results, ret);
    }
  }

  lemma FailureStep(fs: map<Path, Inode>, dir: Path, names: seq<string>, wanted: bv32 -> bool,
                    filter: Path -> bool, results: Path -> int, ret: int)
    requires names != [] && ret >= 0
    requires var sub := PathOf(Entry(dir, names[0])); sub in fs ==> WalkFailsRight(fs, sub, wanted, filter, results)
    requires var next := NextRet(fs, dir, names, wanted, filter, results, ret);
      next >= 0 ==> FailsRight(fs, dir, names[1..], wanted, filter, results, next)
    ensures FailsRight(fs, dir, names, wanted, filter, results, ret)
  {
    var sub := PathOf(Entry(dir, names[0]));
    if IsDots(names[0]) || filter(sub) || sub !in fs {
      SkipStep(fs, dir, names, wanted, filter, results, ret);
      assert NextRet(fs, dir, names, wanted, filter, results, ret) == ret;
    } else {
      FailureAdmitted(fs, dir, names, wanted, filter, results, ret);
    }
  }

  lemma FailureAdmitted(fs: map<Path, Inode>, dir: Path, names: seq<string>, wanted: bv32 -> bool,
                        filter: Path -> bool, results: Path -> int, ret: int)
    requires names != [] && ret >= 0 && !IsDots(names[0])
    requires var sub := PathOf(Entry(dir, names[0])); !filter(sub) && sub in fs
    requires var sub := PathOf(Entry(dir, names[0])); sub in fs ==> WalkFailsRight(fs, sub, wanted, filter, results)
    requires var next := NextRet(fs, dir, names, wanted, filter, results, ret);
      next >= 0 ==> FailsRight(fs, dir, names[1..], wanted, filter, results, next)
    ensures FailsRight(fs, dir, names, wanted, filter, results, ret)
  {
    var sub := PathOf(Entry(dir, names[0]));
    if wanted(fs[sub].mode) && results(sub) < 0 {
      StopStep(fs, dir, names, wanted, filter, results, ret);
    } else if IsDir(fs[sub].mode) {
      FailureDir(fs, dir, names, wanted, filter, results, ret);
    } else {
      FailureLeaf(fs, dir, names, wanted, filter, results, ret);
    }
  }

  lemma FailureLeaf(fs: map<Path, Inode>, dir: Path, names: seq<string>, wanted: bv32 -> bool,
                    filter: Path -> bool, results: Path -> int, ret: int)
    requires names != [] && ret >= 0 && !IsDots(names[0])
    requires var sub := PathOf(Entry(dir, names[0]));
      !filter(sub) && sub in fs && !(wanted(fs[sub].mode) && results(sub) < 0) && !IsDir(fs[sub].mode)
    requires var next := NextRet(fs, dir, names, wanted, filter, results, ret);
      next >= 0 ==> FailsRight(fs, dir, names[1..], wanted, filter, results, next)
    ensures FailsRight(fs, dir, names, wanted, filter, results, ret)
  {
    var e := Entry(dir, names[0]);
    var visited := wanted(fs[PathOf(e)].mode);
    var r := if visited then results(PathOf(e)) else ret;
    assert NextRet(fs, dir, names, wanted, filter, results, ret) == r;
    LeafStep(fs, dir, names, wanted, filter, results, ret);
    var rest := WalkEntries(fs, dir, names[1..], wanted, filter, results, r);
    FailFront(fs, results, if visited then [e] else [], [], rest, Prepend(if visited then [e] else [], [], rest));
  }

  lemma FailureDir(fs: map<Path, Inode>, dir: Path, names: seq<string>, wanted: bv32 -> bool,
                   filter: Path -> bool, results: Path -> int, ret: int)
    requires names != [] && ret >= 0 && !IsDots(names[0])
    requires var sub := PathOf(Entry(dir, names[0]));
      !filter(sub) && sub in fs && !(wanted(fs[sub].mode) && results(sub) < 0) && IsDir(fs[sub].mode)
    requires var sub := PathOf(Entry(dir, names[0])); sub in fs ==> WalkFailsRight(fs, sub, wanted, filter, results)
    requires var next := NextRet(fs, dir, names, wanted, filter, results, ret);
      next >= 0 ==> FailsRight(fs, dir, names[1..], wanted, filter, results, next)
    ensures FailsRight(fs, dir, names, wanted, filter, results, ret)
  {
    var e := Entry(dir, names[0]);
    var sub := PathOf(e);
    var v := if wanted(fs[sub].mode) then [e] else [];
    var d := Walk(fs, sub, wanted, filter, results);
    assert NextRet(fs, dir, names, wanted, filter, results, ret) == d.ret;
    DirStep(fs, dir, names, wanted, filter, results, ret);
    assert forall x :: x in v ==> results(PathOf(x)) >= 0;
    if d.ret < 0 {
      FailDirFront(fs, results, v, e, d);
    } else {
      var rest := WalkEntries(fs, dir, names[1..], wanted, filter, results, d.ret);
      AllVisitsFront(results, v, d.visits);
      FailFront(fs, results, v + d.visits, [e] + d.entered, rest, Prepend(v + d.visits, [e] + d.entered, rest));
    }
  }

  lemma AllVisitsFront(results: Path -> int, v: seq<Entry>, w: seq<Entry>)
    requires forall x :: x in v ==> results(PathOf(x)) >= 0
    requires forall i :: 0 <= i < |w| ==> results(PathOf(w[i])) >= 0
    ensures forall x :: x in v + w ==> results(PathOf(x)) >= 0
  {
    forall x | x in v + w
      ensures results(PathOf(x)) >= 0
    {
      if x !in v {
        var i :| 0 <= i < |w| && w[i] == x;
      }
    }
  }

  /** Entries visited without failure in front of a readdir loop that fails right keep it failing right. */
  lemma FailFront(fs: map<Path, Inode>, results: Path -> int, pre: seq<Entry>, den: seq<Entry>, rest: Outcome, o: Outcome)
    requires o == Prepend(pre, den, rest)
    requires forall x :: x in pre ==> results(PathOf(x)) >= 0
    requires VisitsBeforeFailure(results, rest) && EntriesCause(fs, results, rest)
    ensures VisitsBeforeFailure(results, o) && EntriesCause(fs, results, o)
  {
    forall i | 0 <= i < |o.visits| && (i < |o.visits| - 1 || o.ret >= 0)
      ensures results(PathOf(o.visits[i])) >= 0
    {
      if i < |pre| {
        assert o.visits[i] in pre;
      } else {
        assert o.visits[i] == rest.visits[i - |pre|];
      }
    }
    if rest.visits != [] {
      assert Last(o.visits) == Last(rest.visits);
    }
    if rest.entered != [] {
      assert Last(o.entered) == Last(rest.entered);
    }
  }

  /** A failed sub-walk, after entries visited without failure, makes the readdir loop fail right. */
  lemma FailDirFront(fs: map<Path, Inode>, results: Path -> int, pre: seq<Entry>, e: Entry, d: Outcome)
    requires d.ret < 0
    requires forall x :: x in pre ==> results(PathOf(x)) >= 0
    requires VisitsBeforeFailure(results, d) && WalkCause(fs, results, PathOf(e), d)
    ensures var o := Outcome(d.ret, pre + d.visits, [e] + d.entered);
      VisitsBeforeFailure(results, o) && EntriesCause(fs, results, o)
  {
    var o := Outcome(d.ret, pre + d.visits, [e] + d.entered);
    forall i | 0 <= i < |o.visits| - 1
      ensures results(PathOf(o.visits[i])) >= 0
    {
      if i < |pre| {
        assert o.visits[i] in pre;
      } else {
        assert o.visits[i] == d.visits[i - |pre|];
      }
    }
    if d.visits != [] {
      assert Last(o.visits) == Last(d.visits);
    }
    if d.entered != [] {
      assert Last(o.entered) == Last(d.entered);
    } else {
      assert Last(o.entered) == e;
    }
  }

  /** A visitor that never returns a positive value keeps the walk's result at or below zero. */
  lemma {:induction false} WalkNonPositive(fs: map<Path, Inode>, path: Path, wanted: bv32 -> bool, filter: Path -> bool, results: Path -> int)
    requires forall p :: results(p) <= 0
    ensures Walk(fs, path, wanted, filter, results).ret <= 0
    decreases Longer(fs, path), 1
  {
    if Openable(fs, path) {
      EntriesNonPositive(fs, path, fs[path].listing.value, wanted, filter, results, 0);
    }
  }

  lemma {:induction false} EntriesNonPositive(fs: map<Path, Inode>, dir: Path, names: seq<string>, wanted: bv32 -> bool,
                                              filter: Path -> bool, results: Path -> int, ret: int)
    requires forall p :: results(p) <= 0
    requires ret <= 0
    ensures WalkEntries(fs, dir, names, wanted, filter, results, ret).ret <= 0
    decreases Longer(fs, dir), 0, |names|
  {
    if names != [] {
      var sub := PathOf(Entry(dir, names[0]));
      if sub in fs {
        LongerShrinks(fs, dir, sub);
        WalkNonPositive(fs, sub, wanted, filter, results);
      }
      EntriesNonPositive(fs, dir, names[1..], wanted, filter, results, NextRet(fs, dir, names, wanted, filter, results, ret));
      NonPositiveStep(fs, dir, names, wanted, filter, results, ret);
    }
  }

  lemma NonPositiveStep(fs: map<Path, Inode>, dir: Path, names: seq<string>, wanted: bv32 -> bool,
                        filter: Path -> bool, results: Path -> int, ret: int)
    requires names != []
    requires WalkEntries(fs, dir, names[1..], wanted, filter, results, NextRet(fs, dir, names, wanted, filter, results, ret)).ret <= 0
    requires var sub := PathOf(Entry(dir, names[0])); sub in fs ==> Walk(fs, sub, wanted, filter, results).ret <= 0
    requires forall p :: results(p) <= 0
    ensures WalkEntries(fs, dir, names, wanted, filter, results, ret).ret <= 0
  {
    var sub := PathOf(Entry(dir, names[0]));
    if IsDots(names[0]) || filter(sub) || sub !in fs {
      SkipStep(fs, dir, names, wanted, filter, results, ret);
    } else if wanted(fs[sub].mode) && results(sub) < 0 {
      StopStep(fs, dir, names, wanted, filter, results, ret);
    } else if IsDir(fs[sub].mode) {
      DirStep(fs, dir, names, wanted, filter, results, ret);
    } else {
      LeafStep(fs, dir, names, wanted, filter, results, ret);
    }
  }

  /**
   * With a visitor that always returns 0 — as the one the tree watch walks
   * with does — the walk returns 0 or -1, and -1 only because the root, or
   * the last directory it descended into, could not be opened.
   */
  lemma QuietWalk(fs: map<Path, Inode>, path: Path, wanted: bv32 -> bool, filter: Path -> bool, results: Path -> int)
    requires forall p :: results(p) == 0
    ensures var o := Walk(fs, path, wanted, filter, results);
      (o.ret == 0 || o.ret == -1)
      && (o.ret == -1 ==> if o.entered == [] then !Openable(fs, path) else !Openable(fs, PathOf(Last(o.entered))))
  {
    WalkNonPositive(fs, path, wanted, filter, results);
    WalkFailure(fs, path, wanted, filter, results);
  }

  /**
   * What the readdir loop does with one name: whether it breaks out there,
   * the value ret then holds, and the entries visited and descended into
   * for it (those of the sub-walk included).
   */
  datatype Step = Step(stop: bool, ret: int, visits: seq<Entry>, entered: seq<Entry>)

  function EntryStep(fs: map<Path, Inode>, dir: Path, name: string, wanted: bv32 -> bool,
                     filter: Path -> bool, results: Path -> int, ret: int): Step
  {
    var e := Entry(dir, name);
    var sub := PathOf(e);
    if IsDots(name) || filter(sub) || sub !in fs then Step(false, ret, [], [])
    else
      var mode := fs[sub].mode;
      if wanted(mode) && results(sub) < 0 then Step(true, results(sub), [e], [])
      else
        var v := if wanted(mode) then [e] else [];
        if IsDir(mode) then
          var d := Walk(fs, sub, wanted, filter, results);
          Step(d.ret < 0, d.ret, v + d.visits, [e] + d.entered)
        else Step(false, if wanted(mode) then results(sub) else ret, v, [])
  }

  /** The readdir loop is its first step followed, unless that step breaks out, by the loop over the other names. */
  lemma EntriesByStep(fs: map<Path, Inode>, dir: Path, names: seq<string>, wanted: bv32 -> bool,
                      filter: Path -> bool, results: Path -> int, ret: int)
    requires names != []
    ensures var s := EntryStep(fs, dir, names[0], wanted, filter, results, ret);
      WalkEntries(fs, dir, names, wanted, filter, results, ret)
      == if s.stop then Outcome(s.ret, s.visits, s.entered)
         else Prepend(s.visits, s.entered, WalkEntries(fs, dir, names[1..], wanted, filter, results, s.ret))
  {
    var sub := PathOf(Entry(dir, names[0]));
    if IsDots(names[0]) || filter(sub) || sub !in fs {
      SkipStep(fs, dir, names, wanted, filter, results, ret);
      assert WalkEntries(fs, dir, names[1..], wanted, filter, results, ret)
          == Prepend([], [], WalkEntries(fs, dir, names[1..], wanted, filter, results, ret));
    } else if wanted(fs[sub].mode) && results(sub) < 0 {
      StopStep(fs, dir, names, wanted, filter, results, ret);
    } else if IsDir(fs[sub].mode) {
      DirStep(fs, dir, names, wanted, filter, results, ret);
      var d := Walk(fs, sub, wanted, filter, results);
      var v := if wanted(fs[sub].mode) then [Entry(dir, names[0])] else [];
      assert Prepend(v + d.visits, [Entry(dir, names[0])] + d.entered, Outcome(d.ret, [], []))
          == Outcome(d.ret, v + d.visits, [Entry(dir, names[0])] + d.entered);
    } else {
      LeafStep(fs, dir, names, wanted, filter, results, ret);
    }
  }

  /**
   * The readdir loop's account of the walk of dir (what was visited and
   * entered so far, then the loop over the names left) carried across the
   * entry at k.
   */
  lemma LoopStep(fs: map<Path, Inode>, dir: Path, names: seq<string>, k: nat, wanted: bv32 -> bool,
                 filter: Path -> bool, results: Path -> int, ret: int, vs: seq<Entry>, ens: seq<Entry>)
    requires k < |names|
    requires Walk(fs, dir, wanted, filter, results) == Prepend(vs, ens, WalkEntries(fs, dir, names[k..], wanted, filter, results, ret))
    ensures var s := EntryStep(fs, dir, names[k], wanted, filter, results, ret);
      if s.stop then Walk(fs, dir, wanted, filter, results) == Outcome(s.ret, vs + s.visits, ens + s.entered)
      else Walk(fs, dir, wanted, filter, results)
           == Prepend(vs + s.visits, ens + s.entered, WalkEntries(fs, dir, names[k + 1..], wanted, filter, results, s.ret))
  {
    var s := EntryStep(fs, dir, names[k], wanted, filter, results, ret);
    EntriesByStep(fs, dir, names[k..], wanted, filter, results, ret);
    assert names[k..][0] == names[k] && names[k..][1..] == names[k + 1..];
    PrependStep(vs, ens, s, WalkEntries(fs, dir, names[k..], wanted, filter, results, ret),
                WalkEntries(fs, dir, names[k + 1..], wanted, filter, results, s.ret));
  }

  /** What was walked before a step, put in front of the step and what follows it. */
  lemma PrependStep(vs: seq<Entry>, ens: seq<Entry>, s: Step, o: Outcome, w: Outcome)
    requires o == if s.stop then Outcome(s.ret, s.visits, s.entered) else Prepend(s.visits, s.entered, w)
    ensures s.stop ==> Prepend(vs, ens, o) == Outcome(s.ret, vs + s.visits, ens + s.entered)
    ensures !s.stop ==> Prepend(vs, ens, o) == Prepend(vs + s.visits, ens + s.entered, w)
  {
    if !s.stop {
      assert vs + (s.visits + w.visits) == (vs + s.visits) + w.visits;
      assert ens + (s.entered + w.entered) == (ens + s.entered) + w.entered;
    }
  }
}
