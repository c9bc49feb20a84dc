/** kernel/fs/vfs.c: path resolution through the dentry cache. */
module Vfs {
  import opened Common
  import opened DentryModel

  const NAME_MAX: nat := 255

  /** The character-by-character comparison of two C strings. */
  method SameName(a: string, b: string) returns (same: bool)
    requires '\0' !in a && '\0' !in b
    ensures same <==> a == b
  {
    var i := 0;
    while i < |a| && i < |b|
      invariant i <= |a| && i <= |b| && a[..i] == b[..i]
    {
      if a[i] != b[i] { return false; }
      i := i + 1;
    }
    assert |a| == |b| ==> a == a[..i] && b == b[..i];
    same := i == |a| && i == |b|;
  }

  /** Every component fits the buffer lookup_path collects it in. */
  ghost predicate Fit(names: seq<string>) {
    forall k :: 0 <= k < |names| ==> |names[k]| <= NAME_MAX
  }

  lemma FitTail(name: string, rest: seq<string>)
    requires Fit([name] + rest)
    ensures |name| <= NAME_MAX && Fit(rest)
  {
    var all := [name] + rest;
    assert all[0] == name && forall k :: 0 <= k < |rest| ==> rest[k] == all[k + 1];
  }

  class Cache {
    const lookup: Lookup
    /** All dentries in order of allocation; none while vfs_root is NULL. */
    var dentries: seq<Dentry>

    ghost predicate Valid()
      reads this
    {
      && (dentries != [] ==> Inv(dentries, lookup))
      && forall i :: 0 <= i < |dentries| ==> '\0' !in dentries[i].name
    }

    constructor (lookup: Lookup)
      ensures Valid() && dentries == [] && this.lookup == lookup
    {
      this.lookup := lookup;
      dentries := [];
    }

    /** vfs_mount on "/": the filesystem's root dentry becomes the root. */
    method MountRoot(ino: nat)
      modifies this
      ensures Valid() && dentries == Mounted(ino)
    {
      dentries := Mounted(ino);
      MountedInv(lookup, ino);
    }

    /** The scan of cur's children list for a name. */
    method FindChild(cur: nat, name: string) returns (r: Option<nat>)
      requires Valid() && cur < |dentries| && '\0' !in name
      ensures r == Child(dentries, |dentries|, cur, name)
    {
      var child := dentries[cur].children;
      ghost var hi: nat := |dentries|;
      while child.Some?
        invariant hi <= |dentries| && child == Newest(dentries, hi, cur)
        invariant Child(dentries, |dentries|, cur, name) == Child(dentries, hi, cur, name)
        decreases hi
      {
        SearchNewest(dentries, hi, cur, name);
        var same := SameName(dentries[child.value].name, name);
        if same { return child; }
        hi := child.value;
        child := dentries[child.value].next;
      }
      SearchNewest(dentries, hi, cur, name);
      return None;
    }

    /** The new dentry's name, copied up to NAME_MAX characters. */
    method CopyName(component: string) returns (name: string)
      ensures name == component[..if |component| < NAME_MAX then |component| else NAME_MAX]
    {
      name := "";
      var ni := 0;
      while ni < |component| && ni < NAME_MAX
        invariant ni <= |component| && ni <= NAME_MAX && name == component[..ni]
      {
        name := name + [component[ni]];
        ni := ni + 1;
      }
    }

    /** The new dentry at the front of cur's children. */
    method AddChild(cur: nat, component: string, ino: nat)
      requires Valid() && cur < |dentries| && '\0' !in component && |component| <= NAME_MAX
      requires Child(dentries, |dentries|, cur, component) == None && lookup(dentries[cur].ino, component) == Some(ino)
      modifies this
      ensures Valid() && dentries == Insert(old(dentries), cur, component, ino)
    {
      var name := CopyName(component);
      InsertKeeps(dentries, lookup, cur, component, ino);
      var de := Dentry(name, ino, Some(cur), None, dentries[cur].children);
      assert name == component;
      ghost var before := dentries;
      dentries := dentries[cur := dentries[cur].(children := Some(|dentries|))] + [de];
      assert forall i :: 0 <= i < |before| ==> dentries[i].name == before[i].name;
    }

    /** One component: the cached child, or a new dentry for what the filesystem finds. */
    method TakeStep(cur: nat, component: string) returns (r: Option<nat>)
      requires Valid() && cur < |dentries| && '\0' !in component && |component| <= NAME_MAX
      modifies this
      ensures Valid() && (dentries, r) == DentryModel.Step(old(dentries), lookup, cur, component)
    {
      r := FindChild(cur, component);
      if r.None? {
        var ino := lookup(dentries[cur].ino, component);
        if ino.Some? {
          r := Some(|dentries|);
          AddChild(cur, component, ino.value);
        }
      }
    }

    /** The run of characters up to the next slash or the end. */
    method NextComponent(path: string, start: nat) returns (component: string, p: nat)
      requires start <= |path|
      ensures p == End(path, start) && component == path[start..p]
    {
      component, p := "", start;
      while p < |path| && path[p] != '/'
        invariant start <= p <= |path| && component == path[start..p] && End(path, start) == End(path, p)
      {
        component := component + [path[p]];
        p := p + 1;
      }
    }

    /** One round of the loop over the path. */
    method Advance(path: string, cur: nat, p: nat) returns (d: Option<nat>, q: nat)
      requires Valid() && cur < |dentries| && p < |path| && '\0' !in path && Fit(Components(path, p))
      modifies this
      ensures Valid() && p < q <= |path| && Fit(Components(path, q)) && (d.Some? ==> d.value < |dentries|)
      ensures Walk(old(dentries), lookup, cur, Components(path, p))
              == if d.None? then (dentries, None) else Walk(dentries, lookup, d.value, Components(path, q))
    {
      hide Inv, Walk, Components, End;
      NextComponents(path, p);
      var component, e := NextComponent(path, p);
      if component == "" { return Some(cur), p + 1; }
      ghost var rest := Components(path, e);
      WalkCons(dentries, lookup, cur, component, rest);
      FitTail(component, rest);
      assert forall k :: 0 <= k < |component| ==> component[k] == path[p + k];
      q := if e < |path| then e + 1 else e;
      assert Components(path, q) == rest;
      d := TakeStep(cur, component);
    }

    /** lookup_path: a dentry exactly when the uncached lookups succeed, with their inode; the cache
        only grows. A NULL path fails like the empty one. Components longer than NAME_MAX are
        outside what the component buffer can hold. */
    method LookupPath(path: string) returns (r: Option<nat>)
      requires Valid() && '\0' !in path
      requires path != "" ==> Fit(Components(path, 1))
      modifies this
      ensures Valid()
      ensures path == "" || path[0] != '/' || old(dentries) == [] ==> r == None && dentries == old(dentries)
      ensures path != "" && path[0] == '/' && old(dentries) != [] ==>
                && (dentries, r) == Walk(old(dentries), lookup, 0, Components(path, 1))
                && Extends(old(dentries), dentries) && (r.Some? ==> r.value < |dentries|)
                && Resolve(lookup, old(dentries)[0].ino, Components(path, 1))
                   == (match r case None => None case Some(i) => Some(dentries[i].ino))
    {
      if path == "" || path[0] != '/' { return None; }
      if dentries == [] { return None; }
      ghost var names := Components(path, 1);
      WalkAgrees(dentries, lookup, 0, names);
      var cur: nat := 0;
      if |path| == 1 { return Some(cur); }
      var p: nat := 1;
      while p < |path|
        invariant 1 <= p <= |path| && Valid() && cur < |dentries|
        invariant Walk(old(dentries), lookup, 0, names) == Walk(dentries, lookup, cur, Components(path, p))
        invariant Fit(Components(path, p))
        decreases |path| - p
      {
        var d, q := Advance(path, cur, p);
        if d.None? { return None; }
        cur, p := d.value, q;
      }
      r := Some(cur);
    }
  }
}
