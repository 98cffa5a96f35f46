/**
 Path resolution on exFAT (`exfat_find_root` of `exfat.c`): a walk from the root directory,
 one component at a time.
 */
module ExfatPath {
  import opened Words
  import opened Exfat
  import opened ExfatDirectory
  import opened ExfatLookup

  const MAX_NAME: nat := 256

  predicate Separator(c: byte) { c == 0x2F || c == 0x5C }

  /** Length of the leading run of separators, or of other characters. */
  function Run(path: seq<byte>, separators: bool): (n: nat)
    ensures n <= |path| && (n < |path| ==> Separator(path[n]) != separators)
    ensures forall k :: 0 <= k < n ==> Separator(path[k]) == separators
  {
    if path == [] || Separator(path[0]) != separators then 0 else 1 + Run(path[1..], separators)
  }

  /** The names between separators, in order; empty ones do not count. */
  function Components(path: seq<byte>): seq<seq<byte>>
    decreases |path|
  {
    if path == [] then []
    else if Separator(path[0]) then Components(path[1..])
    else var n := Run(path, false); [path[..n]] + Components(path[n..])
  }

  predicate IsDirectory(e: Entry) { e.attributes / 0x10 % 2 == 1 }

  /** `dirs` gives the chain of every directory that can be reached. */
  ghost predicate Reachable(v: Volume, disk: seq<byte>, dirs: map<nat, seq<nat>>)
  {
    && Fits(v, disk) && v.root in dirs
    && (forall c :: c in dirs ==> IsChain(v, disk, dirs[c]) && dirs[c][0] == c)
    && (forall c :: c in dirs ==> forall e :: e in ListChain(v, disk, dirs[c], 0) && IsDirectory(e) ==>
          e.first in dirs || !(2 <= e.first < EOC))
  }

  /** Look one name up in the directory at cluster `c`; a directory without clusters is empty. */
  ghost function Lookup(v: Volume, disk: seq<byte>, dirs: map<nat, seq<nat>>, c: nat, name: seq<byte>): Option<Entry>
  {
    if c in dirs then FindName(Take(ListChain(v, disk, dirs[c], 0), LOOKUP_MAX), name) else None
  }

  /** The entry the components lead to: all but the last must be directories, none may be too long. */
  ghost function Walk(v: Volume, disk: seq<byte>, dirs: map<nat, seq<nat>>, c: nat,
                      names: seq<seq<byte>>): Option<Entry>
    decreases |names|
  {
    if names == [] || |names[0]| + 1 > MAX_NAME then None
    else
      var e := Lookup(v, disk, dirs, c, names[0]);
      if e.None? || |names| == 1 then e
      else if !IsDirectory(e.value) then None
      else Walk(v, disk, dirs, e.value.first, names[1..])
  }

  lemma {:induction false} SkipSeparators(path: seq<byte>, n: nat)
    requires n <= |path| && forall k :: 0 <= k < n ==> Separator(path[k])
    ensures Components(path) == Components(path[n..])
  {
    if n == 0 {
    } else {
      SkipSeparators(path[1..], n - 1);
      assert path[1..][n - 1..] == path[n..];
    }
  }

  /** The first component and the rest, separators after it skipped. */
  lemma FirstComponent(path: seq<byte>)
    requires path != [] && !Separator(path[0])
    ensures var n := Run(path, false);
            var rest := path[n..][Run(path[n..], true)..];
            && Components(path) == [path[..n]] + Components(rest)
            && (rest != [] ==> !Separator(rest[0])) && (rest == [] <==> Components(rest) == [])
  {
    var n := Run(path, false);
    SkipSeparators(path[n..], Run(path[n..], true));
  }

  lemma {:induction false} FoundIn(entries: seq<Entry>, name: seq<byte>)
    ensures FindName(entries, name).Some? ==> FindName(entries, name).value in entries
  {
    if entries == [] {
    } else {
      FoundIn(entries[1..], name);
    }
  }

  lemma LookupStays(v: Volume, disk: seq<byte>, dirs: map<nat, seq<nat>>, c: nat, name: seq<byte>)
    requires Reachable(v, disk, dirs)
    ensures var e := Lookup(v, disk, dirs, c, name);
            e.Some? && IsDirectory(e.value) ==> e.value.first in dirs || !(2 <= e.value.first < EOC)
  {
    hide IsDirectory, FindName, ListChain;
    if c in dirs {
      FoundIn(Take(ListChain(v, disk, dirs[c], 0), LOOKUP_MAX), name);
    }
  }

  /** `find_in_cluster_chain` on any cluster number, valid or not. */
  method FindIn(v: Volume, disk: seq<byte>, c: nat, ghost dirs: map<nat, seq<nat>>, name: seq<byte>)
    returns (r: Option<Entry>)
    requires Reachable(v, disk, dirs) && (c in dirs || !(2 <= c < EOC))
    ensures r == Lookup(v, disk, dirs, c, name)
  {
    r := None;
    if c in dirs {
      IsDataCluster(v, disk, dirs, c);
    }
    if 2 <= c < EOC {
      r := FindInChain(v, disk, c, dirs[c], name);
    }
  }

  lemma IsDataCluster(v: Volume, disk: seq<byte>, dirs: map<nat, seq<nat>>, c: nat)
    requires Reachable(v, disk, dirs) && c in dirs
    ensures 2 <= c < EOC
  {
    assert IsChain(v, disk, dirs[c]) && v.IsCluster(dirs[c][0]);
  }

  /** `exfat_find_root`: the walk over the path's components, whatever separators it uses. */
  method FindRoot(v: Volume, disk: seq<byte>, path: seq<byte>, ghost dirs: map<nat, seq<nat>>)
    returns (r: Option<Entry>)
    requires Reachable(v, disk, dirs)
    ensures r == Walk(v, disk, dirs, v.root, Components(path))
  {
    hide Reachable, Lookup, IsDirectory;
    var p := path[Run(path, true)..];
    SkipSeparators(path, Run(path, true));
    var dir: nat := v.root;
    RootReachable(v, disk, dirs);
    while p != []
      invariant p != [] ==> !Separator(p[0])
      invariant dir in dirs || !(2 <= dir < EOC)
      invariant Walk(v, disk, dirs, dir, Components(p)) == Walk(v, disk, dirs, v.root, Components(path))
      decreases |p|
    {
      FirstComponent(p);
      var n := Run(p, false);
      if n + 1 > MAX_NAME {
        return None;
      }
      var name := p[..n];
      var rest := p[n..][Run(p[n..], true)..];
      assert (([name] + Components(rest))[1..]) == Components(rest);
      var current := FindIn(v, disk, dir, dirs, name);
      if current.None? {
        return None;
      }
      p := rest;
      if p == [] {
        return current;
      }
      if !IsDirectory(current.value) {
        return None;
      }
      LookupStays(v, disk, dirs, dir, name);
      dir := current.value.first;
    }
    return None;
  }

  lemma RootReachable(v: Volume, disk: seq<byte>, dirs: map<nat, seq<nat>>)
    requires Reachable(v, disk, dirs)
    ensures v.root in dirs
  {
  }
}
