/** The dentry cache of kernel/fs/vfs.c as a value: dentries are numbered in the order they were
    allocated (0 is the root), a pointer is a number, and the children of a directory form a list
    threaded through next, newest first. */
module DentryModel {
  import opened Common

  /** ops->lookup of the mounted filesystem: directory inode and name to inode. A directory without
      the operation answers None. */
  type Lookup = (nat, string) -> Option<nat>

  datatype Dentry = Dentry(name: string, ino: nat, parent: Option<nat>, children: Option<nat>, next: Option<nat>)

  /** The root dentry a mount leaves behind. */
  function Mounted(ino: nat): seq<Dentry> { [Dentry("/", ino, None, None, None)] }

  // ------------------------------------------------------------------- paths

  /** The end of the run of non-slash characters that starts at i. */
  function End(path: string, i: nat): (e: nat)
    requires i <= |path|
    ensures i <= e <= |path| && '/' !in path[i..e] && (e < |path| ==> path[e] == '/')
    decreases |path| - i
  {
    if i == |path| || path[i] == '/' then i else End(path, i + 1)
  }

  /** The non-empty components of path from i on. */
  function Components(path: string, i: nat): seq<string>
    requires i <= |path|
    decreases |path| - i
  {
    if i == |path| then []
    else if path[i] == '/' then Components(path, i + 1)
    else [path[i..End(path, i)]] + Components(path, End(path, i))
  }

  function JoinPath(names: seq<string>): string {
    if names == [] then "" else "/" + names[0] + JoinPath(names[1..])
  }

  // ----------------------------------------------------------------- lookups

  /** Uncached resolution: the filesystem's lookup folded over the components. */
  function Resolve(lookup: Lookup, ino: nat, names: seq<string>): Option<nat>
    decreases |names|
  {
    if names == [] then Some(ino)
    else
      match lookup(ino, names[0])
      case None => None
      case Some(next) => Resolve(lookup, next, names[1..])
  }

  /** The newest dentry below hi whose parent is p. */
  function Newest(ds: seq<Dentry>, hi: nat, p: nat): (r: Option<nat>)
    requires hi <= |ds|
    ensures r.Some? ==> r.value < hi && ds[r.value].parent == Some(p)
    decreases hi
  {
    if hi == 0 then None else if ds[hi - 1].parent == Some(p) then Some(hi - 1) else Newest(ds, hi - 1, p)
  }

  /** The child of p called name among the dentries below hi. */
  function Child(ds: seq<Dentry>, hi: nat, p: nat, name: string): (r: Option<nat>)
    requires hi <= |ds|
    ensures r.Some? ==> r.value < hi && ds[r.value].parent == Some(p) && ds[r.value].name == name
    decreases hi
  {
    if hi == 0 then None
    else if ds[hi - 1].parent == Some(p) && ds[hi - 1].name == name then Some(hi - 1)
    else Child(ds, hi - 1, p, name)
  }

  /** A new dentry goes to the front of its parent's children. */
  function Insert(ds: seq<Dentry>, cur: nat, name: string, ino: nat): (r: seq<Dentry>)
    requires cur < |ds|
    ensures |r| == |ds| + 1
  {
    ds[cur := ds[cur].(children := Some(|ds|))] + [Dentry(name, ino, Some(cur), None, ds[cur].children)]
  }

  /** One component through the cache: the new cache and the dentry found. */
  function Step(ds: seq<Dentry>, lookup: Lookup, cur: nat, name: string): (r: (seq<Dentry>, Option<nat>))
    requires cur < |ds|
    ensures |ds| <= |r.0| && (r.1.Some? ==> r.1.value < |r.0|)
  {
    match Child(ds, |ds|, cur, name)
    case Some(d) => (ds, Some(d))
    case None =>
      match lookup(ds[cur].ino, name)
      case None => (ds, None)
      case Some(ino) => (Insert(ds, cur, name, ino), Some(|ds|))
  }

  /** Cached resolution: the new cache and the dentry found. */
  function Walk(ds: seq<Dentry>, lookup: Lookup, cur: nat, names: seq<string>): (r: (seq<Dentry>, Option<nat>))
    requires cur < |ds|
    ensures |ds| <= |r.0| && (r.1.Some? ==> r.1.value < |r.0|)
    decreases |names|
  {
    if names == [] then (ds, Some(cur))
    else
      var (next, d) := Step(ds, lookup, cur, names[0]);
      if d.None? then (next, None) else Walk(next, lookup, d.value, names[1..])
  }

  // --------------------------------------------------------------- invariant

  /** Dentry i hangs below an older one and holds what the filesystem says about its name. */
  ghost predicate Sound(ds: seq<Dentry>, lookup: Lookup, i: nat)
    requires i < |ds|
  {
    match ds[i].parent
    case None => i == 0
    case Some(p) => 0 < i && p < i && lookup(ds[p].ino, ds[i].name) == Some(ds[i].ino)
  }

  /** The children lists hold every child, newest first. */
  ghost predicate Threaded(ds: seq<Dentry>) {
    && (forall p :: 0 <= p < |ds| ==> ds[p].children == Newest(ds, |ds|, p))
    && (forall i :: 0 <= i < |ds| && ds[i].parent.Some? ==> ds[i].next == Newest(ds, i, ds[i].parent.value))
  }

  /** Sibling names are unique. */
  ghost predicate Unique(ds: seq<Dentry>) {
    forall i, j :: 0 <= i < j < |ds| && ds[i].parent == ds[j].parent ==> ds[i].name != ds[j].name
  }

  ghost predicate Inv(ds: seq<Dentry>, lookup: Lookup) {
    ds != [] && (forall i :: 0 <= i < |ds| ==> Sound(ds, lookup, i)) && Threaded(ds) && Unique(ds)
  }

  /** later is ds with dentries added: nothing known was renamed, moved or pointed elsewhere. */
  ghost predicate Extends(ds: seq<Dentry>, later: seq<Dentry>) {
    && |ds| <= |later|
    && forall i :: 0 <= i < |ds| ==> later[i].name == ds[i].name && later[i].ino == ds[i].ino && later[i].parent == ds[i].parent
  }

  lemma MountedInv(lookup: Lookup, ino: nat)
    ensures Inv(Mounted(ino), lookup) && Mounted(ino) == [Dentry("/", ino, None, None, None)]
  {
  }

  // ------------------------------------------------------------------- steps

  /** The newest child is the next candidate of a search by name. */
  lemma {:induction false} SearchNewest(ds: seq<Dentry>, hi: nat, p: nat, name: string)
    requires hi <= |ds|
    ensures Child(ds, hi, p, name) ==
              match Newest(ds, hi, p)
              case None => None
              case Some(i) => if ds[i].name == name then Some(i) else Child(ds, i, p, name)
    decreases hi
  {
    if hi > 0 && ds[hi - 1].parent != Some(p) { SearchNewest(ds, hi - 1, p, name); }
  }

  lemma {:induction false} ChildFound(ds: seq<Dentry>, hi: nat, p: nat, name: string, i: nat)
    requires i < hi <= |ds| && ds[i].parent == Some(p) && ds[i].name == name
    ensures Child(ds, hi, p, name).Some? && i <= Child(ds, hi, p, name).value
    decreases hi
  {
    if i < hi - 1 { ChildFound(ds, hi - 1, p, name, i); }
  }

  lemma {:induction false} NewestAfter(ds: seq<Dentry>, later: seq<Dentry>, hi: nat, p: nat)
    requires Extends(ds, later) && hi <= |ds|
    ensures Newest(later, hi, p) == Newest(ds, hi, p)
    decreases hi
  {
    if hi > 0 { NewestAfter(ds, later, hi - 1, p); }
  }

  lemma InsertExtends(ds: seq<Dentry>, cur: nat, name: string, ino: nat)
    requires cur < |ds|
    ensures Extends(ds, Insert(ds, cur, name, ino))
  {
  }

  /** Of the parents' heads only cur's moves, to the new dentry. */
  lemma InsertNewest(ds: seq<Dentry>, cur: nat, name: string, ino: nat, p: nat)
    requires cur < |ds|
    ensures Newest(Insert(ds, cur, name, ino), |ds| + 1, p) == if p == cur then Some(|ds|) else Newest(ds, |ds|, p)
  {
    InsertExtends(ds, cur, name, ino);
    NewestAfter(ds, Insert(ds, cur, name, ino), |ds|, p);
  }

  lemma NoOrphans(ds: seq<Dentry>, lookup: Lookup)
    requires forall i :: 0 <= i < |ds| ==> Sound(ds, lookup, i)
    ensures Newest(ds, |ds|, |ds|) == None
  {
    var r := Newest(ds, |ds|, |ds|);
    assert r.Some? ==> !Sound(ds, lookup, r.value);
  }

  lemma InsertHead(ds: seq<Dentry>, cur: nat, name: string, ino: nat, p: nat)
    requires cur < |ds| && p <= |ds| && Newest(ds, |ds|, |ds|) == None
    requires p < |ds| ==> ds[p].children == Newest(ds, |ds|, p)
    ensures var r := Insert(ds, cur, name, ino); r[p].children == Newest(r, |r|, p)
  {
    InsertNewest(ds, cur, name, ino, p);
  }

  lemma InsertNext(ds: seq<Dentry>, cur: nat, name: string, ino: nat, i: nat)
    requires cur < |ds| && i <= |ds| && ds[cur].children == Newest(ds, |ds|, cur)
    requires i < |ds| && ds[i].parent.Some? ==> ds[i].next == Newest(ds, i, ds[i].parent.value)
    ensures var r := Insert(ds, cur, name, ino); r[i].parent.Some? ==> r[i].next == Newest(r, i, r[i].parent.value)
  {
    var r := Insert(ds, cur, name, ino);
    InsertExtends(ds, cur, name, ino);
    if i == |ds| {
      NewestAfter(ds, r, i, cur);
    } else if ds[i].parent.Some? {
      assert r[i].parent == ds[i].parent && r[i].next == ds[i].next;
      NewestAfter(ds, r, i, ds[i].parent.value);
    }
  }

  lemma InsertThreads(ds: seq<Dentry>, lookup: Lookup, cur: nat, name: string, ino: nat)
    requires cur < |ds| && Inv(ds, lookup)
    ensures Threaded(Insert(ds, cur, name, ino))
  {
    var r := Insert(ds, cur, name, ino);
    NoOrphans(ds, lookup);
    forall p | 0 <= p < |r| ensures r[p].children == Newest(r, |r|, p) { InsertHead(ds, cur, name, ino, p); }
    forall i | 0 <= i < |r| && r[i].parent.Some? ensures r[i].next == Newest(r, i, r[i].parent.value) {
      InsertNext(ds, cur, name, ino, i);
    }
  }

  lemma InsertKeeps(ds: seq<Dentry>, lookup: Lookup, cur: nat, name: string, ino: nat)
    requires cur < |ds| && Inv(ds, lookup)
    requires Child(ds, |ds|, cur, name) == None && lookup(ds[cur].ino, name) == Some(ino)
    ensures Inv(Insert(ds, cur, name, ino), lookup)
  {
    var r := Insert(ds, cur, name, ino);
    InsertExtends(ds, cur, name, ino);
    InsertThreads(ds, lookup, cur, name, ino);
    forall i | 0 <= i < |r| ensures Sound(r, lookup, i) {
      if i < |ds| { assert Sound(ds, lookup, i); }
    }
    forall i, j | 0 <= i < j < |r| && r[i].parent == r[j].parent ensures r[i].name != r[j].name {
      assert r[i].parent == ds[i].parent && r[i].name == ds[i].name;
      if j == |ds| && ds[i].name == name { ChildFound(ds, |ds|, cur, name, i); }
    }
  }

  lemma ExtendsTrans(a: seq<Dentry>, b: seq<Dentry>, c: seq<Dentry>)
    requires Extends(a, b) && Extends(b, c)
    ensures Extends(a, c)
  {
  }

  lemma WalkCons(ds: seq<Dentry>, lookup: Lookup, cur: nat, name: string, rest: seq<string>)
    requires cur < |ds|
    ensures var (next, d) := Step(ds, lookup, cur, name);
            Walk(ds, lookup, cur, [name] + rest) == if d.None? then (next, None) else Walk(next, lookup, d.value, rest)
  {
    assert ([name] + rest)[1..] == rest;
  }

  /** The cache never changes an answer: in any cache state a walk finds a dentry exactly when the
      uncached fold succeeds, with the same inode, and leaves a good cache that extends the old. */
  lemma {:induction false} WalkAgrees(ds: seq<Dentry>, lookup: Lookup, cur: nat, names: seq<string>)
    requires cur < |ds| && Inv(ds, lookup)
    ensures var (later, d) := Walk(ds, lookup, cur, names);
            && Inv(later, lookup) && Extends(ds, later)
            && Resolve(lookup, ds[cur].ino, names) == (match d case None => None case Some(i) => Some(later[i].ino))
    decreases |names|
  {
    if names != [] {
      match Child(ds, |ds|, cur, names[0])
      case Some(d) =>
        assert Sound(ds, lookup, d);
        WalkAgrees(ds, lookup, d, names[1..]);
      case None =>
        match lookup(ds[cur].ino, names[0]) {
          case None =>
          case Some(ino) =>
            var next := Insert(ds, cur, names[0], ino);
            InsertKeeps(ds, lookup, cur, names[0], ino);
            InsertExtends(ds, cur, names[0], ino);
            WalkAgrees(next, lookup, |ds|, names[1..]);
            ExtendsTrans(ds, next, Walk(next, lookup, |ds|, names[1..]).0);
        }
    }
  }

  // ---------------------------------------------- the cache is a tree of paths

  /** The names from the root down to dentry d. */
  ghost function PathOf(ds: seq<Dentry>, d: nat): seq<string>
    requires d < |ds|
    decreases d
  {
    match ds[d].parent
    case None => []
    case Some(p) => if p < d then PathOf(ds, p) + [ds[d].name] else []
  }

  lemma {:induction false} PathOfAfter(ds: seq<Dentry>, later: seq<Dentry>, d: nat)
    requires Extends(ds, later) && d < |ds|
    ensures PathOf(later, d) == PathOf(ds, d)
    decreases d
  {
    if ds[d].parent.Some? && ds[d].parent.value < d { PathOfAfter(ds, later, ds[d].parent.value); }
  }

  /** No two dentries stand for the same path. */
  lemma {:induction false} PathDetermines(ds: seq<Dentry>, lookup: Lookup, a: nat, b: nat)
    requires Inv(ds, lookup) && a < |ds| && b < |ds| && PathOf(ds, a) == PathOf(ds, b)
    ensures a == b
    decreases a
  {
    assert Sound(ds, lookup, a) && Sound(ds, lookup, b);
    if a != 0 && b != 0 {
      var p, q := ds[a].parent.value, ds[b].parent.value;
      var m := |PathOf(ds, a)| - 1;
      assert PathOf(ds, a)[..m] == PathOf(ds, p) && PathOf(ds, b)[..m] == PathOf(ds, q);
      assert ds[a].name == PathOf(ds, a)[m] && ds[b].name == PathOf(ds, b)[m];
      PathDetermines(ds, lookup, p, q);
    }
  }

  /** Stepping from cur to its child d by names[0] keeps the whole path. */
  lemma StepPath(ds: seq<Dentry>, cur: nat, d: nat, names: seq<string>)
    requires cur < d < |ds| && ds[d].parent == Some(cur) && names != [] && ds[d].name == names[0]
    ensures PathOf(ds, d) + names[1..] == PathOf(ds, cur) + names
  {
    assert names == [names[0]] + names[1..];
  }

  /** The dentry a walk returns is the one for the path walked. */
  lemma {:induction false} WalkReaches(ds: seq<Dentry>, lookup: Lookup, cur: nat, names: seq<string>)
    requires cur < |ds| && Inv(ds, lookup)
    ensures var (later, d) := Walk(ds, lookup, cur, names);
            d.Some? ==> PathOf(later, d.value) == PathOf(ds, cur) + names
    decreases |names|
  {
    if names == [] {
      assert PathOf(ds, cur) + names == PathOf(ds, cur);
    } else {
      match Child(ds, |ds|, cur, names[0])
      case Some(d) =>
        assert Sound(ds, lookup, d);
        StepPath(ds, cur, d, names);
        WalkReaches(ds, lookup, d, names[1..]);
      case None =>
        match lookup(ds[cur].ino, names[0]) {
          case None =>
          case Some(ino) =>
            var next := Insert(ds, cur, names[0], ino);
            InsertKeeps(ds, lookup, cur, names[0], ino);
            InsertExtends(ds, cur, names[0], ino);
            PathOfAfter(ds, next, cur);
            StepPath(next, cur, |ds|, names);
            WalkReaches(next, lookup, |ds|, names[1..]);
        }
    }
  }

  lemma Siblings(ds: seq<Dentry>, i: nat, j: nat)
    requires Unique(ds) && i < |ds| && j < |ds| && ds[i].parent == ds[j].parent && ds[i].name == ds[j].name
    ensures i == j
  {
  }

  /** A child stays the child of that name as the cache grows. */
  lemma ChildStays(ds: seq<Dentry>, later: seq<Dentry>, p: nat, name: string, d: nat)
    requires Extends(ds, later) && Unique(later) && Child(ds, |ds|, p, name) == Some(d)
    ensures Child(later, |later|, p, name) == Some(d)
  {
    assert later[d].parent == Some(p) && later[d].name == name;
    ChildFound(later, |later|, p, name, d);
    Siblings(later, Child(later, |later|, p, name).value, d);
  }

  lemma NewChild(ds: seq<Dentry>, cur: nat, name: string, ino: nat)
    requires cur < |ds|
    ensures var r := Insert(ds, cur, name, ino); Child(r, |r|, cur, name) == Some(|ds|)
  {
  }

  /** A walk's first step, taken or found, is there in every later cache. */
  lemma FirstStepStays(ds: seq<Dentry>, lookup: Lookup, cur: nat, names: seq<string>, later: seq<Dentry>)
    requires names != [] && cur < |ds| && Inv(ds, lookup) && Inv(later, lookup)
    requires Child(ds, |ds|, cur, names[0]).None? && lookup(ds[cur].ino, names[0]).Some?
    requires var next := Insert(ds, cur, names[0], lookup(ds[cur].ino, names[0]).value);
             Extends(Walk(next, lookup, |ds|, names[1..]).0, later)
    ensures Child(later, |later|, cur, names[0]) == Some(|ds|)
  {
    var ino := lookup(ds[cur].ino, names[0]).value;
    var next := Insert(ds, cur, names[0], ino);
    assert Extends(next, later) by {
      InsertKeeps(ds, lookup, cur, names[0], ino);
      WalkAgrees(next, lookup, |ds|, names[1..]);
      ExtendsTrans(next, Walk(next, lookup, |ds|, names[1..]).0, later);
    }
    NewChild(ds, cur, names[0], ino);
    ChildStays(next, later, cur, names[0], |ds|);
  }

  /** Once found, a path is answered from the cache for ever: in every later cache the same walk
      returns the same dentry and adds nothing. */
  lemma {:induction false} WalkStays(ds: seq<Dentry>, lookup: Lookup, cur: nat, names: seq<string>, later: seq<Dentry>)
    requires cur < |ds| && Inv(ds, lookup) && Inv(later, lookup) && |ds| <= |later|
    requires Walk(ds, lookup, cur, names).1.Some? && Extends(Walk(ds, lookup, cur, names).0, later)
    ensures Walk(later, lookup, cur, names) == (later, Walk(ds, lookup, cur, names).1)
    decreases |names|
  {
    if names != [] {
      match Child(ds, |ds|, cur, names[0])
      case Some(d) =>
        assert Child(later, |later|, cur, names[0]) == Some(d) by {
          WalkAgrees(ds, lookup, cur, names);
          ExtendsTrans(ds, Walk(ds, lookup, cur, names).0, later);
          ChildStays(ds, later, cur, names[0], d);
        }
        WalkStays(ds, lookup, d, names[1..], later);
      case None =>
        var ino := lookup(ds[cur].ino, names[0]).value;
        assert Child(later, |later|, cur, names[0]) == Some(|ds|) by { FirstStepStays(ds, lookup, cur, names, later); }
        InsertKeeps(ds, lookup, cur, names[0], ino);
        WalkStays(Insert(ds, cur, names[0], ino), lookup, |ds|, names[1..], later);
    }
  }

  // -------------------------------------------------------------------- runs

  /** The cache after a run of lookups from a fresh mount. */
  function Run(lookup: Lookup, ino: nat, paths: seq<seq<string>>): (ds: seq<Dentry>)
    ensures ds != []
  {
    if paths == [] then Mounted(ino)
    else Walk(Run(lookup, ino, paths[..|paths| - 1]), lookup, 0, paths[|paths| - 1]).0
  }

  lemma {:induction false} RunKeeps(lookup: Lookup, ino: nat, paths: seq<seq<string>>)
    ensures Inv(Run(lookup, ino, paths), lookup) && Run(lookup, ino, paths)[0].ino == ino
  {
    if paths != [] {
      RunKeeps(lookup, ino, paths[..|paths| - 1]);
      WalkAgrees(Run(lookup, ino, paths[..|paths| - 1]), lookup, 0, paths[|paths| - 1]);
    }
  }

  /** After any history, a lookup answers as the uncached fold from the root inode does, with the
      one dentry that stands for its path. */
  lemma RunsAgree(lookup: Lookup, ino: nat, history: seq<seq<string>>, names: seq<string>)
    ensures var ds := Run(lookup, ino, history);
            var (later, d) := Walk(ds, lookup, 0, names);
            && Resolve(lookup, ino, names) == (match d case None => None case Some(i) => Some(later[i].ino))
            && (d.Some? ==> PathOf(later, d.value) == names)
            && (forall i :: 0 <= i < |later| && PathOf(later, i) == names ==> d == Some(i))
  {
    var ds := Run(lookup, ino, history);
    RunKeeps(lookup, ino, history);
    WalkAgrees(ds, lookup, 0, names);
    WalkReaches(ds, lookup, 0, names);
    assert Sound(ds, lookup, 0) && PathOf(ds, 0) == [] && [] + names == names;
    var (later, d) := Walk(ds, lookup, 0, names);
    forall i | 0 <= i < |later| && PathOf(later, i) == names ensures d == Some(i) {
      PathResolves(later, lookup, i);
      assert later[0].ino == ino;
      PathDetermines(later, lookup, i, d.value);
    }
  }

  lemma {:induction false} ResolveSnoc(lookup: Lookup, ino: nat, names: seq<string>, last: string)
    ensures Resolve(lookup, ino, names + [last]) ==
              match Resolve(lookup, ino, names) case None => None case Some(i) => lookup(i, last)
    decreases |names|
  {
    if names == [] {
      assert names + [last] == [last];
      assert [last][1..] == [];
    } else if lookup(ino, names[0]).Some? {
      assert (names + [last])[1..] == names[1..] + [last];
      ResolveSnoc(lookup, lookup(ino, names[0]).value, names[1..], last);
    }
  }

  /** Every cached dentry holds what resolving its path gives. */
  lemma {:induction false} PathResolves(ds: seq<Dentry>, lookup: Lookup, d: nat)
    requires Inv(ds, lookup) && d < |ds|
    ensures Resolve(lookup, ds[0].ino, PathOf(ds, d)) == Some(ds[d].ino)
    decreases d
  {
    assert Sound(ds, lookup, d);
    if d != 0 {
      PathResolves(ds, lookup, ds[d].parent.value);
      ResolveSnoc(lookup, ds[0].ino, PathOf(ds, ds[d].parent.value), ds[d].name);
    }
  }

  // ---------------------------------------------------------- path components

  lemma {:induction false} EndOf(path: string, i: nat, e: nat)
    requires i <= e <= |path| && '/' !in path[i..e] && (e < |path| ==> path[e] == '/')
    ensures End(path, i) == e
    decreases e - i
  {
    if i < e {
      assert path[i] in path[i..e];
      assert forall k :: i + 1 <= k < e ==> path[k] in path[i..e];
      EndOf(path, i + 1, e);
    }
  }

  lemma {:induction false} ComponentsAreNames(path: string, i: nat)
    requires i <= |path|
    ensures forall k :: 0 <= k < |Components(path, i)| ==> Components(path, i)[k] != "" && '/' !in Components(path, i)[k]
    decreases |path| - i
  {
    if i < |path| { ComponentsAreNames(path, if path[i] == '/' then i + 1 else End(path, i)); }
  }

  /** What the loop of lookup_path does with the text from i on. */
  lemma NextComponents(path: string, i: nat)
    requires i < |path|
    ensures var e := End(path, i);
            && (e == i ==> Components(path, i) == Components(path, i + 1))
            && (e > i ==> Components(path, i) == [path[i..e]] + Components(path, e))
            && (e < |path| ==> Components(path, e) == Components(path, e + 1))
  {
  }

  lemma FirstComponent(path: string, i: nat, e: nat)
    requires 0 < i < e <= |path| && path[i - 1] == '/' && '/' !in path[i..e] && (e < |path| ==> path[e] == '/')
    ensures Components(path, i - 1) == [path[i..e]] + Components(path, e)
  {
    EndOf(path, i, e);
    assert path[i] in path[i..e];
    assert Components(path, i - 1) == Components(path, i);
  }

  /** Components undoes joining, whatever comes before. */
  lemma {:induction false} ComponentsOfJoin(pre: string, names: seq<string>)
    requires forall k :: 0 <= k < |names| ==> names[k] != "" && '/' !in names[k]
    ensures Components(pre + JoinPath(names), |pre|) == names
    decreases |names|
  {
    if names != [] {
      var before, rest := pre + "/" + names[0], JoinPath(names[1..]);
      assert pre + JoinPath(names) == before + rest;
      var path, i := before + rest, |pre| + 1;
      assert path[i - 1] == '/' && path[i..|before|] == names[0];
      FirstComponent(path, i, |before|);
      ComponentsOfJoin(before, names[1..]);
    }
  }
}
