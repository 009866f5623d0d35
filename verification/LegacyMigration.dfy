/**
 Moving legacy executable-adjacent data into the data root.

 A file system is a tree of nodes by path. Every call into it may fail; a copy that fails may leave
 any part of its destination, a removal that fails may have removed any part of its target.
 */
module LegacyMigration {
  import opened Wrappers

  type Path = seq<string>

  /** `Link` is a symbolic link with what the file it leads to holds; a link that leads nowhere is dangling, and
      `exists` does not report it. */
  datatype Node = File(data: string) | Dir | Special | Link(content: Option<string>)

  predicate Dangling(n: Node) { n == Link(None) }

  type Fs = map<Path, Node>

  /** Every ancestor of a node is a directory. */
  ghost predicate Tree(fs: Fs) {
    forall p, k :: p in fs && 0 <= k < |p| ==> p[..k] in fs && fs[p[..k]] == Dir
  }

  predicate Exists(fs: Fs, p: Path) {
    p in fs && !Dangling(fs[p])
  }

  /** The tree at `a` in one file system is the tree at `b` in another. */
  ghost predicate SameTree(fs: Fs, a: Path, fs': Fs, b: Path) {
    forall q: Path :: (a + q in fs <==> b + q in fs') && (a + q in fs ==> fs[a + q] == fs'[b + q])
  }

  /** The entry at `a` is complete at `b`: the same tree, or a link there leads to what the file held. */
  ghost predicate Delivered(fs: Fs, a: Path, fs': Fs, b: Path) {
    || SameTree(fs, a, fs', b)
    || (&& a in fs && fs[a].File?
        && b in fs' && fs'[b] == Link(Some(fs[a].data))
        && (forall q :: q in fs' && b <= q ==> q == b)
        && (forall q :: q in fs && a <= q ==> q == a))
  }

  /** Neither path is inside the other. */
  ghost predicate Apart(a: Path, b: Path) {
    !(a <= b) && !(b <= a)
  }

  // ---------------------------------------------------------------- layout

  function StripPrefix(name: string, prefix: string): Option<string> {
    if prefix < name then Some(name[|prefix|..]) else None
  }

  /** Where one legacy entry belongs in the data root: always two levels down. */
  function Destination(legacy: Path, root: Path): (r: Option<Path>)
    ensures r.Some? ==> |r.value| == |root| + 2 && root <= r.value
  {
    if legacy == [] then None
    else
      var name := legacy[|legacy| - 1];
      if name == "adbkey" then
        if |legacy| >= 2 && legacy[|legacy| - 2] == "adb" then Some(root + ["adb", "adbkey"]) else None
      else if StripPrefix(name, "work_").Some? then Some(root + ["work", StripPrefix(name, "work_").value])
      else if StripPrefix(name, "output_").Some? then Some(root + ["outputs", StripPrefix(name, "output_").value])
      else if "backup_" <= name then Some(root + ["backups", name])
      else None
  }

  datatype Decision = Move | LeaveExisting | Nothing

  function Decide(legacyExists: bool, destinationExists: bool): Decision {
    if destinationExists then LeaveExisting else if legacyExists then Move else Nothing
  }

  /** The paths a pass considers: the key file, and any directory directly in the legacy root. */
  ghost predicate Candidate(legacyRoot: Path, c: Path) {
    c == legacyRoot + ["adb", "adbkey"] || (|c| == |legacyRoot| + 1 && legacyRoot <= c)
  }

  ghost predicate Legacy(legacyRoot: Path, root: Path, c: Path) {
    Candidate(legacyRoot, c) && Destination(c, root).Some?
  }

  ghost predicate Considered(fs: Fs, legacyRoot: Path, c: Path) {
    Candidate(legacyRoot, c) && (c == legacyRoot + ["adb", "adbkey"] || (c in fs && fs[c] == Dir))
  }

  /** No legacy entry holds a destination or lies in one. */
  ghost predicate EntriesApart(legacyRoot: Path, root: Path) {
    forall c, e :: Legacy(legacyRoot, root, c) && Legacy(legacyRoot, root, e) ==> Apart(c, Destination(e, root).value)
  }

  /** No legacy entry lies in the data root or holds it. */
  ghost predicate RootsApart(legacyRoot: Path, root: Path) {
    forall c :: Legacy(legacyRoot, root, c) ==> Apart(c, root)
  }

  // ---------------------------------------------------------------- lemmas on paths

  lemma PrefixesCompare(a: Path, b: Path, p: Path)
    ensures a <= p && b <= p ==> a <= b || b <= a
  {
    if |a| <= |b| {
      assert a <= p && b <= p ==> a == p[..|a|] == b[..|a|];
    } else {
      assert a <= p && b <= p ==> b == p[..|b|] == a[..|b|];
    }
  }

  lemma PrefixTrans(a: Path, b: Path, c: Path)
    ensures a <= b && b <= c ==> a <= c
  {
  }

  lemma ApartFromDestination(c: Path, root: Path, d: Path)
    requires Apart(c, root) && root <= d
    ensures Apart(c, d)
  {
    PrefixesCompare(c, root, d);
    PrefixTrans(root, d, c);
  }

  /** Two legacy entries never hold one another. */
  lemma LegacyApart(legacyRoot: Path, root: Path, a: Path, b: Path)
    requires Legacy(legacyRoot, root, a) && Legacy(legacyRoot, root, b) && a != b
    ensures Apart(a, b)
  {
    var key := legacyRoot + ["adb", "adbkey"];
    var adb := legacyRoot + ["adb"];
    assert Destination(adb, root).None?;
    assert forall p :: p <= key && |p| == |adb| ==> p == adb by {
      assert key[..|adb|] == adb;
    }
  }

  lemma SameTreeSelf(fs: Fs, fs': Fs, a: Path)
    requires forall p :: a <= p ==> (p in fs <==> p in fs') && (p in fs ==> fs[p] == fs'[p])
    ensures SameTree(fs, a, fs', a)
  {
    forall q: Path ensures (a + q in fs <==> a + q in fs') && (a + q in fs ==> fs[a + q] == fs'[a + q]) {
      assert a <= a + q;
    }
  }

  lemma SameTreeTrans(f1: Fs, a: Path, f2: Fs, b: Path, f3: Fs, c: Path)
    requires SameTree(f1, a, f2, b) && SameTree(f2, b, f3, c)
    ensures SameTree(f1, a, f3, c)
  {
    forall q: Path ensures (a + q in f1 <==> c + q in f3) && (a + q in f1 ==> f1[a + q] == f3[c + q]) {
      assert (a + q in f1 <==> b + q in f2) && (b + q in f2 <==> c + q in f3);
    }
  }

  // ---------------------------------------------------------------- operations of the operating system

  /** `fs` with the tree at `a` moved to `b`, replacing whatever was there. */
  function Relocated(fs: Fs, a: Path, b: Path): (r: Fs) {
    var kept := set p | p in fs && !(a <= p) && !(b <= p);
    var moved := set p | p in fs && a <= p :: b + p[|a|..];
    map p | p in kept + moved :: if b <= p
        && a + p[|b|..] in fs then fs[a + p[|b|..]] else if p in fs then fs[p] else Special
  }

  lemma RelocatedMeans(fs: Fs, a: Path, b: Path)
    requires Tree(fs) && Apart(a, b)
    requires |b| > 0 && b[..|b| - 1] in fs && fs[b[..|b| - 1]] == Dir
    requires b !in fs || fs[b] != Dir
    ensures var r := Relocated(fs, a, b);
            && SameTree(fs, a, r, b)
            && (forall p :: a <= p ==> p !in r)
            && (forall p :: !(a <= p) && !(b <= p) ==> (p in r <==> p in fs) && (p in fs ==> r[p] == fs[p]))
  {
    var r := Relocated(fs, a, b);
    forall q: Path ensures (a + q in fs <==> b + q in r) && (a + q in fs ==> fs[a + q] == r[b + q]) {
      assert (a + q)[|a|..] == q && (b + q)[|b|..] == q;
      assert a <= a + q && b <= b + q;
      if b + q in r {
        var p :| p in fs && a <= p && b + p[|a|..] == b + q;
        assert p[|a|..] == (b + p[|a|..])[|b|..] == q;
        assert p == a + q;
      }
    }
    forall p | a <= p ensures p !in r {
      PrefixesCompare(a, b, p);
      assert forall s :: s in fs && a <= s ==> b <= b + s[|a|..];
    }
  }

  /** Ancestors of what stays are what they were. */
  lemma RelocatedKeptAncestor(fs: Fs, a: Path, b: Path, p: Path, k: nat)
    requires Tree(fs) && Apart(a, b)
    requires p in fs && !(a <= p) && !(b <= p) && k < |p|
    ensures !(a <= p[..k]) && !(b <= p[..k]) && p[..k] in fs && fs[p[..k]] == Dir
  {
    PrefixTrans(a, p[..k], p);
    PrefixTrans(b, p[..k], p);
  }

  /** Ancestors of the new root are the destination's own ancestors, untouched by the move. */
  lemma RelocatedRootAncestor(fs: Fs, a: Path, b: Path, k: nat)
    requires Tree(fs) && Apart(a, b)
    requires k < |b| && b[..|b| - 1] in fs && fs[b[..|b| - 1]] == Dir
    ensures !(a <= b[..k]) && !(b <= b[..k]) && b[..k] in fs && fs[b[..k]] == Dir
  {
    PrefixTrans(a, b[..k], b);
    assert k < |b| - 1 ==> b[..|b| - 1][..k] == b[..k];
  }

  lemma RelocatedTree(fs: Fs, a: Path, b: Path)
    requires Tree(fs) && Apart(a, b)
    requires |b| > 0 && b[..|b| - 1] in fs && fs[b[..|b| - 1]] == Dir
    requires b !in fs || fs[b] != Dir
    ensures Tree(Relocated(fs, a, b))
  {
    var r := Relocated(fs, a, b);
    RelocatedMeans(fs, a, b);
    hide Relocated;
    forall p, k | p in r && 0 <= k < |p| ensures p[..k] in r && r[p[..k]] == Dir {
      if !(b <= p) {
        RelocatedKeptAncestor(fs, a, b, p, k);
      } else if k < |b| {
        RelocatedRootAncestor(fs, a, b, k);
        assert p[..k] == b[..k];
      } else {
        MovedAncestor(fs, a, b, r, p, k);
      }
    }
  }

  /** Ancestors below the new root were ancestors below the old one. */
  lemma MovedAncestor(fs: Fs, a: Path, b: Path, r: Fs, p: Path, k: nat)
    requires Tree(fs) && SameTree(fs, a, r, b)
    requires p in r && b <= p && |b| <= k < |p|
    ensures p[..k] in r && r[p[..k]] == Dir
  {
    var q := p[|b|..];
    var q' := q[..k - |b|];
    assert p == b + q && p[..k] == b + q' && (a + q)[..|a| + |q'|] == a + q';
    assert a + q in fs;
  }

  /** Nothing outside the tree at `p` differs. */
  ghost predicate SameOutside(fs: Fs, fs': Fs, p: Path) {
    forall q :: !(p <= q) ==> (q in fs <==> q in fs') && (q in fs ==> fs[q] == fs'[q])
  }

  /** `fs'` is `fs` with part of the tree at `p` removed. */
  ghost predicate Shrunk(fs: Fs, fs': Fs, p: Path) {
    && SameOutside(fs, fs', p)
    && forall q :: q in fs' ==> q in fs && fs'[q] == fs[q]
  }

  lemma PrunedTree(fs: Fs, p: Path)
    requires Tree(fs)
    ensures var left := map q | q in fs && !(p <= q) :: fs[q]; Tree(left) && Shrunk(fs, left, p)
  {
    forall q, k | q in fs && !(p <= q) && 0 <= k < |q| ensures !(p <= q[..k]) {
      PrefixTrans(p, q[..k], q);
    }
  }

  /** An interrupted removal: children go before their parents, so what stays below `p` keeps its ancestors. */
  function Leftover(fs: Fs, p: Path, keep: set<Path>): Fs {
    map q | q in fs && (!(p <= q) || forall k :: |p| <= k <= |q| ==> q[..k] in keep) :: fs[q]
  }

  lemma LeftoverTree(fs: Fs, p: Path, keep: set<Path>)
    requires Tree(fs)
    ensures Tree(Leftover(fs, p, keep)) && Shrunk(fs, Leftover(fs, p, keep), p)
  {
    var left := Leftover(fs, p, keep);
    forall q, j | q in left && 0 <= j < |q| ensures q[..j] in left && left[q[..j]] == Dir {
      PrefixTrans(p, q[..j], q);
      forall k | |p| <= k <= j ensures p <= q ==> q[..j][..k] in keep {
        assert q[..j][..k] == q[..k];
      }
    }
  }

  lemma NodeAdded(fs: Fs, p: Path, n: Node)
    requires Tree(fs) && |p| > 0 && p[..|p| - 1] in fs && fs[p[..|p| - 1]] == Dir
    requires p in fs ==> fs[p] != Dir
    ensures Tree(fs[p := n])
  {
    forall k | 0 <= k < |p| ensures p[..k] in fs && fs[p[..k]] == Dir {
      assert k < |p| - 1 ==> p[..|p| - 1][..k] == p[..k];
    }
  }

  lemma ProperPrefixIsDir(fs: Fs, p: Path, q: Path)
    requires Tree(fs) && q in fs && p <= q && |p| < |q|
    ensures p in fs && fs[p] == Dir
  {
    assert q[..|p|] == p;
  }

  /** Nothing lies below a path that holds no directory. */
  lemma NothingBelow(fs: Fs, p: Path)
    requires Tree(fs) && (p in fs ==> fs[p] != Dir)
    ensures forall q :: q in fs && p <= q ==> q == p
  {
    forall q | q in fs && p <= q ensures q == p {
      if |p| < |q| { ProperPrefixIsDir(fs, p, q); }
    }
  }

  lemma AncestorPresent(fs: Fs, p: Path, c: Path)
    requires Tree(fs) && c <= p
    ensures p in fs ==> c in fs
  {
    assert c == p[..|c|];
    assert |c| == |p| ==> c == p;
  }

  ghost function Under(fs: Fs, p: Path): set<Path> {
    set q | q in fs && p <= q
  }

  /** The copy so far: the named children are copied, nothing else is below `b`. */
  ghost predicate CopiedChildren(fs: Fs, a: Path, fs': Fs, b: Path, names: seq<string>) {
    && b in fs' && fs'[b] == Dir
    && (forall n :: n in names ==> SameTree(fs, a + [n], fs', b + [n]))
    && (forall q :: q in fs' && b <= q && q != b ==> q[|b|] in names)
  }

  lemma ChildrenMakeTree(fs: Fs, a: Path, fs': Fs, b: Path, names: seq<string>)
    requires Tree(fs) && a in fs && fs[a] == Dir
    requires CopiedChildren(fs, a, fs', b, names)
    requires forall n :: n in names <==> a + [n] in fs
    ensures SameTree(fs, a, fs', b)
  {
    forall q: Path ensures (a + q in fs <==> b + q in fs') && (a + q in fs ==> fs[a + q] == fs'[b + q]) {
      if q == [] {
        assert a + q == a && b + q == b;
      } else {
        var n := q[0];
        assert a + q == (a + [n]) + q[1..] && b + q == (b + [n]) + q[1..];
        assert (a + q)[..|a| + 1] == a + [n];
        if n in names {
          assert SameTree(fs, a + [n], fs', b + [n]);
        } else {
          assert (b + q)[|b|] == n && b <= b + q && b + q != b;
          AncestorPresent(fs, a + q, a + [n]);
        }
      }
    }
  }

  /** A change confined to one child keeps the copies of the others. */
  lemma SiblingsKept(fs: Fs, a: Path, mid: Fs, fs': Fs, b: Path, n: string, m: string)
    requires n != m && SameTree(fs, a + [m], mid, b + [m])
    requires SameOutside(mid, fs', b + [n])
    ensures SameTree(fs, a + [m], fs', b + [m])
  {
    forall q: Path
        ensures (a + [m] + q in fs <==> b + [m] + q in fs')
        && (a + [m] + q in fs ==> fs[a + [m] + q] == fs'[b + [m] + q]) {
      assert (b + [m] + q)[|b|] == m;
      assert !(b + [n] <= b + [m] + q);
    }
  }

  class Disk {
    var fs: Fs

    constructor (fs: Fs)
      ensures this.fs == fs
    {
      this.fs := fs;
    }

    /** Rename onto a path nothing visible occupies: all or nothing. A dangling link is replaced, but not by a
        directory. */
    method Rename(a: Path, b: Path) returns (ok: bool)
      requires Tree(fs) && Apart(a, b) && !Exists(fs, b)
      modifies this
      ensures Tree(fs)
      ensures !ok ==> fs == old(fs)
      ensures ok ==> a in old(fs) && (b in old(fs) ==> old(fs)[a] != Dir)
      ensures ok ==> SameTree(old(fs), a, fs, b) && (forall p :: a <= p ==> p !in fs)
                     && forall p :: !(a <= p) && !(b <= p) ==>
                         (p in fs <==> p in old(fs)) && (p in fs ==> fs[p] == old(fs)[p])
    {
      ok := *;
      if a !in fs || |b| == 0 || b[..|b| - 1] !in fs || fs[b[..|b| - 1]] != Dir || (b in fs && fs[a] == Dir) || !ok {
        return false;
      }
      RelocatedMeans(fs, a, b);
      RelocatedTree(fs, a, b);
      fs := Relocated(fs, a, b);
    }

    /** Create the missing directories of a path; a failure may have created some of them. */
    method CreateDirAll(p: Path) returns (ok: bool)
      requires Tree(fs)
      modifies this
      ensures Tree(fs)
      ensures forall q :: q in old(fs) ==> q in fs && fs[q] == old(fs)[q]
      ensures forall q :: q in fs && q !in old(fs) ==> q <= p && fs[q] == Dir
      ensures ok ==> p in fs && fs[p] == Dir
    {
      for k := 0 to |p| + 1
        invariant Tree(fs)
        invariant forall q :: q in old(fs) ==> q in fs && fs[q] == old(fs)[q]
        invariant forall q :: q in fs && q !in old(fs) ==> q <= p && fs[q] == Dir
        invariant k > 0 ==> p[..k - 1] in fs && fs[p[..k - 1]] == Dir
      {
        var here := p[..k];
        if here !in fs {
          var created := *;
          if !created { return false; }
          if k > 0 {
            assert here[..k - 1] == p[..k - 1];
            NodeAdded(fs, here, Dir);
          } else {
            assert forall q :: q in fs ==> q[..0] == here;
          }
          fs := fs[here := Dir];
        } else if fs[here] != Dir {
          return false;
        }
      }
      assert p[..|p|] == p;
      return true;
    }

    /** Remove a tree; a failure may have removed part of it. */
    method RemoveAll(p: Path) returns (ok: bool)
      requires Tree(fs)
      modifies this
      ensures Tree(fs) && Shrunk(old(fs), fs, p)
      ensures ok ==> forall q :: p <= q ==> q !in fs
    {
      ok := *;
      if ok {
        PrunedTree(fs, p);
        fs := map q | q in fs && !(p <= q) :: fs[q];
      } else {
        var keep: set<Path> := *;
        LeftoverTree(fs, p, keep);
        fs := Leftover(fs, p, keep);
      }
    }

    method RemoveEntryIfExists(p: Path) returns (ok: bool)
      requires Tree(fs)
      modifies this
      ensures Tree(fs) && Shrunk(old(fs), fs, p)
      ensures ok ==> p !in fs
    {
      var inspected := *;
      if !inspected {
        return false;
      }
      if p !in fs {
        return true;
      }
      ok := RemoveAll(p);
    }

    method Children(a: Path) returns (names: seq<string>)
      ensures forall n :: n in names <==> a + [n] in fs
      ensures forall i, j :: 0 <= i < j < |names| ==> names[i] != names[j]
    {
      names := [];
      var todo := set p | p in fs && |p| == |a| + 1 && a <= p :: p[|a|];
      assert forall n :: n in todo <==> a + [n] in fs by {
        forall n ensures n in todo <==> a + [n] in fs {
          if a + [n] in fs { assert (a + [n])[|a|] == n && a <= a + [n]; }
          assert forall p: Path :: |p| == |a| + 1 && a <= p && p[|a|] == n ==> p == a + [n];
        }
      }
      while todo != {}
        invariant forall n :: a + [n] in fs <==> n in todo || n in names
        invariant forall n :: n in todo ==> n !in names
        invariant forall i, j :: 0 <= i < j < |names| ==> names[i] != names[j]
        decreases todo
      {
        var n :| n in todo;
        todo := todo - {n};
        names := names + [n];
      }
    }

    /** Copy a file or a directory tree. Only the destination's tree may change; success means it equals the source,
        and an unsupported entry anywhere in the source is a failure. A file is written through a dangling link, which
        then leads to it; a directory is not created over one. */
    method CopyEntry(a: Path, b: Path, ghost tree: set<Path>) returns (ok: bool)
      requires Tree(fs) && Apart(a, b)
      requires |b| > 0 && b[..|b| - 1] in fs && fs[b[..|b| - 1]] == Dir && !Exists(fs, b)
      requires tree == Under(fs, a)
      modifies this
      ensures Tree(fs) && SameOutside(old(fs), fs, b)
      ensures ok ==> Delivered(old(fs), a, fs, b) && Exists(fs, b)
      ensures ok && b !in old(fs) ==> SameTree(old(fs), a, fs, b)
      decreases tree, 2
    {
      NothingBelow(fs, b);
      var inspected := *;
      if a !in fs || !inspected {
        return false;
      }
      match fs[a] {
        case File(data) =>
          ok := CopyFile(data, b);
          if ok {
            NothingBelow(old(fs), a);
            NothingBelow(fs, b);
            forall q: Path | b !in old(fs)
                ensures (a + q in old(fs) <==> b + q in fs) && (a + q in old(fs) ==> old(fs)[a + q] == fs[b + q]) {
              if q == [] { assert a + q == a && b + q == b; } else { assert a <= a + q && b <= b + q; }
            }
          }
        case Dir =>
          ok := CopyDirectory(a, b, tree);
        case _ =>
          ok := false;
      }
    }

    method CopyFile(data: string, b: Path) returns (ok: bool)
      requires Tree(fs) && |b| > 0 && b[..|b| - 1] in fs && fs[b[..|b| - 1]] == Dir && !Exists(fs, b)
      modifies this
      ensures Tree(fs) && SameOutside(old(fs), fs, b)
      ensures ok ==> b in fs && fs[b] == if b in old(fs) then Link(Some(data)) else File(data)
    {
      var created, partial: string := *, *;
      ok := *;
      if !created {
        return false;
      }
      var written := if ok then data else partial;
      var node := if b in fs then Link(Some(written)) else File(written);
      NodeAdded(fs, b, node);
      fs := fs[b := node];
    }

    method CopyDirectory(a: Path, b: Path, ghost tree: set<Path>) returns (ok: bool)
      requires Tree(fs) && Apart(a, b)
      requires |b| > 0 && b[..|b| - 1] in fs && fs[b[..|b| - 1]] == Dir && !Exists(fs, b)
      requires a in fs && fs[a] == Dir && tree == Under(fs, a)
      modifies this
      ensures Tree(fs) && SameOutside(old(fs), fs, b)
      ensures ok ==> b !in old(fs) && SameTree(old(fs), a, fs, b) && b in fs && fs[b] == Dir
      decreases tree, 1
    {
      ghost var before := fs;
      NothingBelow(fs, b);
      var created := *;
      if b in fs || !created {
        return false;
      }
      NodeAdded(fs, b, Dir);
      fs := fs[b := Dir];
      var names := Children(a);
      ChildrenOf(before, fs, a, b);
      ok := CopyChildren(a, b, names, before, tree);
      if ok { ChildrenMakeTree(before, a, fs, b, names); }
    }

    /** Copy the entries of a directory one by one into the directory just created for them. */
    method CopyChildren(
        a: Path, b: Path, names: seq<string>, ghost before: Fs, ghost tree: set<Path>) returns (ok: bool)
      requires Tree(fs) && Apart(a, b) && a in before && tree == Under(before, a)
      requires SameOutside(before, fs, b) && CopiedChildren(before, a, fs, b, [])
      requires forall n :: n in names ==> a + [n] in before
      requires forall i, j :: 0 <= i < j < |names| ==> names[i] != names[j]
      modifies this
      ensures Tree(fs) && SameOutside(before, fs, b)
      ensures ok ==> CopiedChildren(before, a, fs, b, names)
      decreases tree, 0
    {
      hide SameTree, SameOutside, CopiedChildren, Tree, Under, Delivered;
      for i := 0 to |names|
        invariant Tree(fs) && SameOutside(before, fs, b)
        invariant CopiedChildren(before, a, fs, b, names[..i])
      {
        var n := names[i];
        var readable := *;
        if !readable {
          return false;
        }
        ghost var mid := fs;
        ChildCopyAllowed(before, mid, a, b, n);
        ChildIsNew(before, mid, a, b, names[..i], n);
        var copied := CopyEntry(a + [n], b + [n], Under(mid, a + [n]));
        SameOutsideNested(before, mid, fs, b, b + [n]);
        if !copied {
          return false;
        }
        ChildCopied(before, mid, fs, a, b, names[..i], n);
        assert names[..i + 1] == names[..i] + [n];
      }
      assert names[..|names|] == names;
      return true;
    }

    /** Copy, then delete the source. A failed copy cleans its partial destination and leaves the source. */
    method CopyFallback(a: Path, b: Path) returns (ok: bool, ghost cleaned: bool)
      requires Tree(fs) && Apart(a, b)
      requires |b| > 0 && b[..|b| - 1] in fs && fs[b[..|b| - 1]] == Dir && !Exists(fs, b)
      modifies this
      ensures Tree(fs)
      ensures Confined(old(fs), fs, a, b)
      ensures ok ==> Delivered(old(fs), a, fs, b) && Exists(fs, b) && a !in fs
      ensures SameTree(old(fs), a, fs, a) || (Delivered(old(fs), a, fs, b) && Exists(fs, b))
      ensures cleaned ==> !ok && b !in fs && SameTree(old(fs), a, fs, a)
    {
      ghost var before := fs;
      cleaned := false;
      var copied := CopyEntry(a, b, Under(fs, a));
      ghost var mid := fs;
      CopyLeavesSource(before, mid, a, b);
      if !copied {
        var removed := RemoveEntryIfExists(b);
        RemovalConfined(before, mid, fs, a, b);
        return false, removed;
      }
      var inspected := *;
      if !inspected || a !in fs {
        return false, false;
      }
      ok := RemoveAll(a);
      SourceRemoved(before, mid, fs, a, b);
      assert a + [] == a && b + [] == b;
    }

    /** One entry: leave an occupied destination alone, otherwise move by rename or by copying. */
    method MoveOne(a: Path, b: Path, root: Path) returns (ok: bool, ghost cleaned: bool)
      requires Tree(fs) && Apart(a, b) && root <= b && |b| == |root| + 2
      modifies this
      ensures Tree(fs)
      ensures !Moves(old(fs), a, b) ==> ok && fs == old(fs)
      ensures MoveOutcome(old(fs), fs, a, b)
      ensures Moves(old(fs), a, b) && ok ==> Exists(fs, b) && a !in fs
      // However it fails, nothing under the data root is altered by an entry from outside it to a path without a link.
      ensures Moves(old(fs), a, b) && !(root <= a) && b !in old(fs) ==> Unaltered(old(fs), fs, root)
      // Exactly so when it succeeds, and when a failed copy was cleaned up.
      ensures Moves(old(fs), a, b) && ok ==> (Unaltered(old(fs), fs, root) <==> !(root <= a) && b !in old(fs))
      ensures cleaned ==> Moves(old(fs), a, b) && !ok && (Unaltered(old(fs), fs, root) <==> b !in old(fs))
    {
      cleaned := false;
      if Decide(Exists(fs, a), Exists(fs, b)) != Move {
        return true, false;
      }
      ghost var before := fs;
      var parent := b[..|b| - 1];
      var prepared := CreateDirAll(parent);
      ghost var ready := fs;
      ParentsConfined(before, ready, a, b, root);
      if prepared {
        ok := Rename(a, b);
        assert a + [] == a && b + [] == b && a <= a;
        if !ok {
          ok, cleaned := CopyFallback(a, b);
        }
      } else {
        ok := false;
      }
      MoveComposes(before, ready, fs, a, b, ok, cleaned);
      MoveAltersNothingExactly(before, fs, a, b, root, ok, cleaned);
    }

    /** The directories directly in a path, as far as the listing reports them. */
    method ListDirectories(a: Path) returns (found: seq<Path>, ghost complete: bool)
      ensures forall p :: p in found ==> |p| == |a| + 1 && a <= p && p in fs && fs[p] == Dir
      ensures forall i, j :: 0 <= i < j < |found| ==> found[i] != found[j]
      ensures complete ==> forall p :: p in fs && |p| == |a| + 1 && a <= p && fs[p] == Dir ==> p in found
    {
      found := [];
      complete := *;
      var readable := *;
      if !readable {
        return [], false;
      }
      var todo := set p | p in fs && |p| == |a| + 1 && a <= p && fs[p] == Dir;
      while todo != {}
        invariant forall p :: p in todo ==> p in fs && |p| == |a| + 1 && a <= p && fs[p] == Dir
        invariant forall p :: p in found ==> |p| == |a| + 1 && a <= p && p in fs && fs[p] == Dir
        invariant forall p :: p in todo ==> p !in found
        invariant forall i, j :: 0 <= i < j < |found| ==> found[i] != found[j]
        invariant complete ==> forall p :: p in fs && |p| == |a| + 1 && a <= p && fs[p] == Dir ==>
                  p in found || p in todo
        decreases todo
      {
        var p :| p in todo;
        todo := todo - {p};
        var reported := *;
        if reported {
          found := found + [p];
        } else {
          complete := false;
        }
      }
    }

    /** One pass over the legacy root. Each entry is independent: a failure is recorded and the pass goes on. */
    method Migrate(legacyRoot: Path, root: Path) returns (failures: seq<Path>, ghost complete: bool)
      requires Tree(fs) && (legacyRoot == root || EntriesApart(legacyRoot, root))
      modifies this
      ensures Tree(fs)
      ensures legacyRoot == root ==> fs == old(fs) && failures == []
      // No data is lost: every legacy entry is complete where it was or at its destination.
      ensures legacyRoot != root ==> NoLoss(old(fs), fs, legacyRoot, root)
      // Only the entries to be moved and dangling links in their place are altered, and nothing appears but at their
      // destinations.
      ensures OthersKept(old(fs), fs, legacyRoot, root)
      // However moves fail, nothing at all under the data root is altered when no entry to be moved lies in it and no
      // destination holds a link; and only then, in a pass without failures.
      ensures Untroubled(old(fs), legacyRoot, root) ==> Unaltered(old(fs), fs, root)
      ensures complete && failures == [] ==> (Unaltered(old(fs), fs, root) <==> Untroubled(old(fs), legacyRoot, root))
      // A pass without failures settles the layout, and a settled layout is left exactly as it is.
      ensures legacyRoot != root && complete && failures == [] ==> Settled(fs, legacyRoot, root)
      ensures legacyRoot != root && Settled(old(fs), legacyRoot, root) ==> fs == old(fs) && failures == []
    {
      if legacyRoot == root {
        return [], false;
      }
      var listed: seq<Path>;
      listed, complete := ListDirectories(legacyRoot);
      var candidates := [legacyRoot + ["adb", "adbkey"]] + listed;
      assert forall p :: p in candidates <==> p == candidates[0] || p in listed;
      failures := MoveAll(candidates, legacyRoot, root);
      hide PassSoFar, Tree, NoLoss, OthersKept, Untroubled, Unaltered, Settled, EntriesApart, Considered;
      PassDone(old(fs), fs, legacyRoot, root, candidates, failures == [], complete);
      NothingUnderRootAltered(old(fs), fs, legacyRoot, root);
      if complete && failures == [] { CleanPassAlters(old(fs), fs, legacyRoot, root, candidates); }
    }

    method MoveAll(candidates: seq<Path>, legacyRoot: Path, root: Path) returns (failures: seq<Path>)
      requires Tree(fs) && EntriesApart(legacyRoot, root)
      requires forall c :: c in candidates ==> Considered(fs, legacyRoot, c)
      requires forall i, j :: 0 <= i < j < |candidates| ==> candidates[i] != candidates[j]
      modifies this
      ensures PassSoFar(old(fs), fs, legacyRoot, root, candidates, |candidates|, failures == [])
      ensures Settled(old(fs), legacyRoot, root) ==> fs == old(fs) && failures == []
    {
      ghost var before := fs;
      failures := [];
      NothingDoneYet(before, legacyRoot, root, candidates);
      assert forall c :: c in candidates ==> Candidate(legacyRoot, c);
      hide PassSoFar, MoveOutcome, Tree, Destination, Settled, Considered, Exists, Candidate, Legacy, EntriesApart,
          Apart, Unaltered;
      for i := 0 to |candidates|
        invariant PassSoFar(before, fs, legacyRoot, root, candidates, i, failures == [])
        invariant Settled(before, legacyRoot, root) ==> fs == before && failures == []
      {
        var c := candidates[i];
        var destination := Destination(c, root);
        PassMeans(before, fs, legacyRoot, root, candidates, i, failures == []);
        if destination.Some? {
          ghost var mid := fs;
          ConsideredIsLegacy(before, legacyRoot, root, c);
          ghost var cleaned;
          var moved;
          moved, cleaned := MoveOne(c, destination.value, root);
          StepKeepsPass(before, mid, fs, legacyRoot, root, candidates, i, failures == [], moved);
          if !moved {
            failures := failures + [c];
          }
        }
      }
    }
  }

  /** Outside the two trees nothing differs; the source only loses entries. */
  ghost predicate Confined(fs: Fs, fs': Fs, a: Path, b: Path) {
    && (forall p :: !(a <= p) && !(b <= p) ==> (p in fs <==> p in fs') && (p in fs ==> fs[p] == fs'[p]))
    && (forall p :: a <= p && p in fs' ==> p in fs && fs'[p] == fs[p])
  }

  /** There is something to move, and nothing visible in its place. */
  predicate Moves(fs: Fs, a: Path, b: Path) { Exists(fs, a) && !Exists(fs, b) }

  /** What one move may do, however it fails: the entry is complete where it was or at its destination; the source
      only loses entries; beyond the two trees only missing parents appear. */
  ghost predicate MoveOutcome(fs: Fs, fs': Fs, a: Path, b: Path) {
    && (SameTree(fs, a, fs', a) || (Delivered(fs, a, fs', b) && Exists(fs', b)))
    && (forall p :: a <= p && p in fs' ==> p in fs && fs'[p] == fs[p])
    && (forall p :: p in fs && !(a <= p) && !(b <= p) ==> p in fs' && fs'[p] == fs[p])
    && (forall p :: p in fs' && p !in fs && !(b <= p) ==> p <= b && fs'[p] == Dir)
    && (!Moves(fs, a, b) ==> fs' == fs)
  }

  /** Nothing that existed under the data root is altered, links included. */
  ghost predicate Unaltered(fs: Fs, fs': Fs, root: Path) {
    forall p :: p in fs && root <= p ==> p in fs' && fs'[p] == fs[p]
  }

  lemma DeliveredAfter(fs: Fs, mid: Fs, a: Path, fs': Fs, b: Path)
    requires SameTree(fs, a, mid, a) && Delivered(mid, a, fs', b)
    ensures Delivered(fs, a, fs', b)
  {
    if SameTree(mid, a, fs', b) {
      SameTreeTrans(fs, a, mid, a, fs', b);
    } else {
      assert a + [] == a;
      forall q | q in fs && a <= q ensures q == a {
        assert q == a + q[|a|..];
        assert a + q[|a|..] in mid;
      }
    }
  }

  /** Preparing the parents and then moving is one move. */
  lemma MoveComposes(before: Fs, ready: Fs, fs: Fs, a: Path, b: Path, ok: bool, cleaned: bool)
    requires Moves(before, a, b) && Apart(a, b)
    requires SameTree(before, a, ready, a)
    requires forall q :: q in before ==> q in ready && ready[q] == before[q]
    requires forall q :: q in ready && q !in before ==> q <= b && q != b && !(a <= q) && ready[q] == Dir
    requires Confined(ready, fs, a, b)
    requires SameTree(ready, a, fs, a) || (Delivered(ready, a, fs, b) && Exists(fs, b))
    requires cleaned ==> SameTree(ready, a, fs, a)
    ensures MoveOutcome(before, fs, a, b)
    ensures cleaned ==> SameTree(before, a, fs, a)
  {
    if SameTree(ready, a, fs, a) { SameTreeTrans(before, a, ready, a, fs, a); }
    if Delivered(ready, a, fs, b) { DeliveredAfter(before, ready, a, fs, b); }
  }

  /** Exactly when a move alters nothing under the data root: on success, when the entry lies outside it and its
      destination holds no dangling link; when a failed copy was cleaned up, when there was no link to clean up with
      it. */
  lemma MoveAltersNothingExactly(fs: Fs, fs': Fs, a: Path, b: Path, root: Path, ok: bool, cleaned: bool)
    requires Tree(fs) && Moves(fs, a, b) && Apart(a, b) && root <= b
    requires MoveOutcome(fs, fs', a, b)
    requires ok ==> a !in fs' && Exists(fs', b)
    requires cleaned ==> b !in fs' && SameTree(fs, a, fs', a)
    ensures !(root <= a) && b !in fs ==> Unaltered(fs, fs', root)
    ensures ok ==> (Unaltered(fs, fs', root) <==> !(root <= a) && b !in fs)
    ensures cleaned ==> (Unaltered(fs, fs', root) <==> b !in fs)
  {
    hide Delivered;
    if b !in fs {
      NothingBelow(fs, b);
      forall p | p in fs && root <= p ensures !(b <= p) && (a <= p ==> root <= a) {
        PrefixesCompare(a, root, p);
        PrefixTrans(a, root, b);
      }
      if SameTree(fs, a, fs', a) {
        forall p | p in fs && a <= p ensures p in fs' && fs'[p] == fs[p] {
          assert p == a + p[|a|..];
        }
      }
    }
  }

  lemma ParentsConfined(fs: Fs, fs': Fs, a: Path, b: Path, root: Path)
    requires Tree(fs) && Apart(a, b) && root <= b && |b| == |root| + 2
    requires forall q :: q in fs ==> q in fs' && fs'[q] == fs[q]
    requires forall q :: q in fs' && q !in fs ==> q <= b[..|b| - 1] && fs'[q] == Dir
    ensures SameTree(fs, a, fs', a)
    ensures forall q :: q in fs' && q !in fs ==> q <= b && q != b && !(a <= q) && fs'[q] == Dir
    ensures b in fs' ==> b in fs
  {
    forall q | q in fs' && q !in fs ensures q <= b && q != b && !(a <= q) {
      PrefixTrans(a, q, b);
    }
    forall q: Path ensures (a + q in fs <==> a + q in fs') && (a + q in fs ==> fs[a + q] == fs'[a + q]) {
      assert a <= a + q;
    }
  }

  lemma CopyLeavesSource(fs: Fs, fs': Fs, a: Path, b: Path)
    requires Apart(a, b) && SameOutside(fs, fs', b)
    ensures SameTree(fs, a, fs', a) && Confined(fs, fs', a, b)
  {
    forall q: Path ensures !(b <= a + q) {
      PrefixesCompare(a, b, a + q);
      assert a <= a + q;
    }
    forall p | p in fs' && a <= p ensures !(b <= p) {
      PrefixesCompare(a, b, p);
    }
  }

  lemma RemovalConfined(before: Fs, mid: Fs, fs: Fs, a: Path, b: Path)
    requires Apart(a, b) && SameOutside(before, mid, b) && Shrunk(mid, fs, b)
    ensures SameTree(before, a, fs, a) && Confined(before, fs, a, b)
  {
    SameOutsideNested(before, mid, fs, b, b);
    CopyLeavesSource(before, fs, a, b);
  }

  lemma SourceRemoved(before: Fs, mid: Fs, fs: Fs, a: Path, b: Path)
    requires Apart(a, b) && Confined(before, mid, a, b) && Shrunk(mid, fs, a)
    requires Delivered(before, a, mid, b) && Exists(mid, b)
    ensures Delivered(before, a, fs, b) && Exists(fs, b) && Confined(before, fs, a, b)
  {
    forall q: Path ensures !(a <= b + q) {
      PrefixesCompare(a, b, b + q);
      assert b <= b + q;
    }
    assert b + [] == b;
  }

  lemma SameOutsideNested(f1: Fs, f2: Fs, f3: Fs, b: Path, c: Path)
    requires SameOutside(f1, f2, b) && SameOutside(f2, f3, c) && b <= c
    ensures SameOutside(f1, f3, b)
  {
    forall q | !(b <= q) ensures (q in f1 <==> q in f3) && (q in f1 ==> f1[q] == f3[q]) {
      PrefixTrans(b, c, q);
    }
  }

  lemma ChildrenOf(before: Fs, fs: Fs, a: Path, b: Path)
    requires Apart(a, b) && b !in before && fs == before[b := Dir]
    requires forall q :: q in before && b <= q ==> q == b
    ensures SameOutside(before, fs, b) && CopiedChildren(before, a, fs, b, [])
    ensures forall n :: a + [n] in fs <==> a + [n] in before
  {
    forall n ensures a + [n] in fs <==> a + [n] in before { assert a <= a + [n]; }
  }

  lemma ChildIsNew(before: Fs, mid: Fs, a: Path, b: Path, names: seq<string>, n: string)
    requires CopiedChildren(before, a, mid, b, names) && n !in names
    ensures b + [n] !in mid && !Exists(mid, b + [n])
    ensures (b + [n])[..|b + [n]| - 1] == b && b in mid && mid[b] == Dir
  {
    assert (b + [n])[|b|] == n && b <= b + [n] && b + [n] != b;
  }

  lemma ChildCopyAllowed(before: Fs, mid: Fs, a: Path, b: Path, n: string)
    requires Apart(a, b) && SameOutside(before, mid, b)
    requires a in before && a + [n] in before
    ensures Apart(a + [n], b + [n])
    ensures Under(mid, a + [n]) == Under(before, a + [n]) && Under(before, a + [n]) < Under(before, a)
    ensures SameTree(before, a + [n], mid, a + [n])
  {
    PrefixesCompare(a, b, a + [n]);
    PrefixesCompare(a, b, b + [n]);
    PrefixTrans(a, a + [n], b + [n]);
    PrefixTrans(b, b + [n], a + [n]);
    forall q | q in before.Keys + mid.Keys && a + [n] <= q ensures a <= q && !(b <= q) {
      PrefixTrans(a, a + [n], q);
      PrefixesCompare(a, b, q);
    }
    assert a !in Under(before, a + [n]) && a in Under(before, a);
    SameTreeSelf(before, mid, a + [n]);
  }

  lemma ChildCopied(before: Fs, mid: Fs, fs: Fs, a: Path, b: Path, names: seq<string>, n: string)
    requires CopiedChildren(before, a, mid, b, names) && n !in names
    requires SameOutside(mid, fs, b + [n])
    requires SameTree(before, a + [n], mid, a + [n]) && SameTree(mid, a + [n], fs, b + [n])
    ensures CopiedChildren(before, a, fs, b, names + [n])
  {
    SameTreeTrans(before, a + [n], mid, a + [n], fs, b + [n]);
    forall m | m in names ensures SameTree(before, a + [m], fs, b + [m]) {
      SiblingsKept(before, a, mid, fs, b, n, m);
    }
    forall q | q in fs && b <= q && q != b ensures q[|b|] in names + [n] {
      if b + [n] <= q { assert q[|b|] == (b + [n])[|b|]; }
    }
  }

  // ---------------------------------------------------------------- a whole pass

  /** Complete at its old path, or complete and visible at its destination. */
  ghost predicate Kept(before: Fs, fs: Fs, c: Path, d: Path) {
    SameTree(before, c, fs, c) || (Delivered(before, c, fs, d) && Exists(fs, d))
  }

  ghost predicate NoLoss(before: Fs, fs: Fs, legacyRoot: Path, root: Path) {
    forall c :: Legacy(legacyRoot, root, c) ==> Kept(before, fs, c, Destination(c, root).value)
  }

  /** An entry that a pass over this layout is there to move. */
  ghost predicate Eligible(fs: Fs, legacyRoot: Path, root: Path, c: Path) {
    && Considered(fs, legacyRoot, c)
    && Destination(c, root).Some?
    && Moves(fs, c, Destination(c, root).value)
  }

  /** In an entry to be moved, or the link in such an entry's place. */
  ghost predicate Concerned(fs: Fs, legacyRoot: Path, root: Path, c: Path, p: Path) {
    Eligible(fs, legacyRoot, root, c) && (c <= p || Destination(c, root).value == p)
  }

  /** What concerns none of the entries tried so far is what it was. */
  ghost predicate NoClobber(before: Fs, fs: Fs, legacyRoot: Path, root: Path, tried: seq<Path>) {
    forall p :: p in before && (forall c :: c in tried ==> !Concerned(before, legacyRoot, root, c, p)) ==>
        p in fs && fs[p] == before[p]
  }

  /** Whatever appears is at the destination of an entry tried so far, or a missing parent of one. */
  ghost predicate NothingElse(before: Fs, fs: Fs, legacyRoot: Path, root: Path, tried: seq<Path>) {
    forall p :: p in fs && p !in before ==>
      exists c :: c in tried && Eligible(before, legacyRoot, root, c)
          && (Destination(c, root).value <= p || p <= Destination(c, root).value)
  }

  /** A whole pass alters and adds nothing that concerns no entry to be moved. */
  ghost predicate OthersKept(before: Fs, fs: Fs, legacyRoot: Path, root: Path) {
    && (forall p :: p in before && (forall c :: !Concerned(before, legacyRoot, root, c, p)) ==>
        p in fs && fs[p] == before[p])
    && (forall p :: p in fs && p !in before ==>
          exists c :: Eligible(before, legacyRoot, root, c)
              && (Destination(c, root).value <= p || p <= Destination(c, root).value))
  }

  /** No entry to be moved lies in the data root, and none has a link in its place: a caller can look. */
  ghost predicate Untroubled(fs: Fs, legacyRoot: Path, root: Path) {
    forall c :: Eligible(fs, legacyRoot, root, c) ==> !(root <= c) && Destination(c, root).value !in fs
  }

  /** Then no failure pattern alters anything under the data root. */
  lemma NothingUnderRootAltered(before: Fs, fs: Fs, legacyRoot: Path, root: Path)
    requires EntriesApart(legacyRoot, root) && OthersKept(before, fs, legacyRoot, root)
    ensures Untroubled(before, legacyRoot, root) ==> Unaltered(before, fs, root)
  {
    if Untroubled(before, legacyRoot, root) {
      forall p | p in before && root <= p ensures p in fs && fs[p] == before[p] {
        forall c ensures !Concerned(before, legacyRoot, root, c, p) {
          if Eligible(before, legacyRoot, root, c) {
            assert Legacy(legacyRoot, root, c);
            PrefixesCompare(c, root, p);
            PrefixTrans(c, root, Destination(c, root).value);
          }
        }
      }
    }
  }

  /** Roots that do not overlap and destinations without links are enough. */
  lemma UntroubledApart(fs: Fs, legacyRoot: Path, root: Path)
    requires RootsApart(legacyRoot, root)
    requires forall c :: Legacy(legacyRoot, root, c) ==>
              Destination(c, root).value !in fs || Exists(fs, Destination(c, root).value)
    ensures Untroubled(fs, legacyRoot, root)
  {
    forall c | Eligible(fs, legacyRoot, root, c) ensures !(root <= c) && Destination(c, root).value !in fs {
      assert Legacy(legacyRoot, root, c);
    }
  }

  /** Nothing is left to move: each entry a pass could consider is gone or its destination is taken. */
  ghost predicate Settled(fs: Fs, legacyRoot: Path, root: Path) {
    forall c :: Considered(fs, legacyRoot, c) && Destination(c, root).Some? ==>
      SettledEntry(fs, c, Destination(c, root).value)
  }

  ghost predicate SettledEntry(fs: Fs, c: Path, d: Path) {
    Exists(fs, d) || !Exists(fs, c)
  }

  ghost predicate SameBelow(fs: Fs, fs': Fs, c: Path) {
    forall p :: c <= p ==> (p in fs <==> p in fs') && (p in fs ==> fs[p] == fs'[p])
  }

  /** Someone delivered what candidate `k` was to bring: an entry to be moved, no later than `k`, is gone. */
  ghost predicate Brought(before: Fs, fs: Fs, legacyRoot: Path, root: Path, candidates: seq<Path>, k: nat)
    requires k < |candidates|
  {
    && Destination(candidates[k], root).Some?
    && Exists(fs, Destination(candidates[k], root).value)
    && exists m :: 0 <= m <= k && Gone(before, fs, legacyRoot, root, candidates[m], Destination(candidates[k], root))
  }

  ghost predicate Gone(before: Fs, fs: Fs, legacyRoot: Path, root: Path, e: Path, d: Option<Path>) {
    Eligible(before, legacyRoot, root, e) && Destination(e, root) == d && e !in fs
  }

  /** The state of a pass after its first `n` candidates. */
  ghost predicate PassSoFar(
      before: Fs, fs: Fs, legacyRoot: Path, root: Path, candidates: seq<Path>, n: nat, clean: bool) {
    && Tree(fs)
    && n <= |candidates|
    && NoLoss(before, fs, legacyRoot, root)
    && NoClobber(before, fs, legacyRoot, root, candidates[..n])
    && NothingElse(before, fs, legacyRoot, root, candidates[..n])
    && (forall c, p :: Legacy(legacyRoot, root, c) && c <= p && p in fs ==> p in before && fs[p] == before[p])
    && (forall k :: n <= k < |candidates| ==>
        SameBelow(before, fs, candidates[k]) || Destination(candidates[k], root).None?)
    && (clean ==> forall k :: 0 <= k < n && Destination(candidates[k], root).Some? ==>
          SettledEntry(fs, candidates[k], Destination(candidates[k], root).value))
    && (clean ==> forall k :: 0 <= k < n && Eligible(before, legacyRoot, root, candidates[k]) ==>
          Brought(before, fs, legacyRoot, root, candidates, k))
  }

  /** What a pass relies on before its next candidate; one without a destination is passed over. */
  lemma PassMeans(before: Fs, fs: Fs, legacyRoot: Path, root: Path, candidates: seq<Path>, n: nat, clean: bool)
    requires PassSoFar(before, fs, legacyRoot, root, candidates, n, clean) && n < |candidates|
    ensures Tree(fs)
    ensures Destination(candidates[n], root).None? ==> PassSoFar(before, fs, legacyRoot, root, candidates, n + 1, clean)
  {
    hide Tree, NoLoss, SameBelow, SettledEntry, Brought, Destination, Considered, Moves;
    var fewer, more := candidates[..n], candidates[..n + 1];
    assert more == fewer + [candidates[n]];
    if Destination(candidates[n], root).None? {
      TriedMore(before, fs, legacyRoot, root, fewer, candidates[n]);
    }
  }

  /** Trying one more entry without effect changes neither claim. */
  lemma TriedMore(before: Fs, fs: Fs, legacyRoot: Path, root: Path, tried: seq<Path>, c: Path)
    ensures NoClobber(before, fs, legacyRoot, root, tried) ==> NoClobber(before, fs, legacyRoot, root, tried + [c])
    ensures NothingElse(before, fs, legacyRoot, root, tried) ==> NothingElse(before, fs, legacyRoot, root, tried + [c])
  {
    hide Concerned, Eligible;
    assert forall e :: e in tried ==> e in tried + [c];
  }

  lemma ConsideredIsLegacy(fs: Fs, legacyRoot: Path, root: Path, c: Path)
    requires EntriesApart(legacyRoot, root) && Considered(fs, legacyRoot, c) && Destination(c, root).Some?
    ensures Legacy(legacyRoot, root, c) && Apart(c, Destination(c, root).value)
    ensures Settled(fs, legacyRoot, root) ==> Exists(fs, Destination(c, root).value) || !Exists(fs, c)
  {
    assert Legacy(legacyRoot, root, c);
  }

  lemma NothingDoneYet(before: Fs, legacyRoot: Path, root: Path, candidates: seq<Path>)
    requires Tree(before)
    ensures PassSoFar(before, before, legacyRoot, root, candidates, 0, true)
  {
    forall c | Legacy(legacyRoot, root, c) ensures SameTree(before, c, before, c) {
      SameTreeSelf(before, before, c);
    }
  }

  /** A move of one entry leaves every other entry's tree alone. */
  lemma OtherEntryKept(mid: Fs, fs: Fs, legacyRoot: Path, root: Path, c: Path, other: Path)
    requires EntriesApart(legacyRoot, root)
    requires Legacy(legacyRoot, root, c) && Legacy(legacyRoot, root, other) && other != c
    requires MoveOutcome(mid, fs, c, Destination(c, root).value)
    ensures SameBelow(mid, fs, other)
  {
    var d := Destination(c, root).value;
    LegacyApart(legacyRoot, root, c, other);
    forall p | p in mid.Keys + fs.Keys && other <= p ensures !(c <= p) && !(d <= p) && !(p <= d) {
      PrefixesCompare(c, other, p);
      PrefixesCompare(d, other, p);
      PrefixTrans(other, p, d);
    }
  }

  /** A move to one destination leaves every other destination's tree alone; its own, once visible, too. */
  lemma DestinationKept(mid: Fs, fs: Fs, root: Path, c: Path, d: Path, other: Path)
    requires Apart(c, other) && root <= d && root <= other && |d| == |other| == |root| + 2
    requires MoveOutcome(mid, fs, c, d)
    requires Exists(mid, other)
    ensures SameBelow(mid, fs, other)
  {
    if other != d {
      forall p | p in mid.Keys + fs.Keys && other <= p ensures !(c <= p) && !(d <= p) && (p <= d ==> p == d) {
        PrefixesCompare(c, other, p);
        PrefixesCompare(d, other, p);
        PrefixTrans(other, p, d);
      }
    }
  }

  lemma SameTreeFrom(before: Fs, a: Path, mid: Fs, fs: Fs, b: Path)
    requires SameTree(before, a, mid, b) && SameBelow(mid, fs, b)
    ensures SameTree(before, a, fs, b)
  {
    SameTreeSelf(mid, fs, b);
    SameTreeTrans(before, a, mid, b, fs, b);
  }

  lemma DeliveredFrom(before: Fs, a: Path, mid: Fs, fs: Fs, b: Path)
    requires Delivered(before, a, mid, b) && Exists(mid, b) && SameBelow(mid, fs, b)
    ensures Delivered(before, a, fs, b) && Exists(fs, b)
  {
    if SameTree(before, a, mid, b) { SameTreeFrom(before, a, mid, fs, b); }
  }

  lemma StepKeepsLoss(before: Fs, mid: Fs, fs: Fs, legacyRoot: Path, root: Path, c: Path)
    requires EntriesApart(legacyRoot, root) && Legacy(legacyRoot, root, c)
    requires NoLoss(before, mid, legacyRoot, root) && SameBelow(before, mid, c)
    requires MoveOutcome(mid, fs, c, Destination(c, root).value)
    ensures NoLoss(before, fs, legacyRoot, root)
  {
    hide SameTree, Delivered, Destination, Candidate;
    forall e | Legacy(legacyRoot, root, e) ensures Kept(before, fs, e, Destination(e, root).value) {
      var d := Destination(e, root).value;
      if e == c {
        SameTreeSelf(before, mid, c);
        if SameTree(mid, c, fs, c) {
          SameTreeTrans(before, c, mid, c, fs, c);
        } else {
          DeliveredAfter(before, mid, c, fs, d);
        }
      } else if SameTree(before, e, mid, e) {
        OtherEntryKept(mid, fs, legacyRoot, root, c, e);
        SameTreeFrom(before, e, mid, fs, e);
      } else {
        DestinationKept(mid, fs, root, c, Destination(c, root).value, d);
        DeliveredFrom(before, e, mid, fs, d);
      }
    }
  }

  /** An entry that moves now was there to be moved from the start. */
  lemma MovesWasEligible(before: Fs, mid: Fs, legacyRoot: Path, root: Path, tried: seq<Path>, c: Path)
    requires EntriesApart(legacyRoot, root) && Considered(before, legacyRoot, c) && Destination(c, root).Some?
    requires SameBelow(before, mid, c) && NoClobber(before, mid, legacyRoot, root, tried)
    requires Moves(mid, c, Destination(c, root).value)
    ensures Eligible(before, legacyRoot, root, c)
  {
    var d := Destination(c, root).value;
    assert c <= c;
    if Exists(before, d) {
      forall e | e in tried ensures !Concerned(before, legacyRoot, root, e, d) {
        if Eligible(before, legacyRoot, root, e) { assert Legacy(legacyRoot, root, e) && Legacy(legacyRoot, root, c); }
      }
    }
  }

  lemma StepKeepsRoot(before: Fs, mid: Fs, fs: Fs, legacyRoot: Path, root: Path, tried: seq<Path>, c: Path)
    requires EntriesApart(legacyRoot, root) && Considered(before, legacyRoot, c) && Destination(c, root).Some?
    requires Tree(mid) && SameBelow(before, mid, c)
    requires MoveOutcome(mid, fs, c, Destination(c, root).value)
    requires NoClobber(before, mid, legacyRoot, root, tried) && NothingElse(before, mid, legacyRoot, root, tried)
    ensures NoClobber(before, fs, legacyRoot, root, tried + [c])
              && NothingElse(before, fs, legacyRoot, root, tried + [c])
  {
    hide Considered, Delivered, SameTree;
    var d, more := Destination(c, root).value, tried + [c];
    TriedMore(before, mid, legacyRoot, root, tried, c);
    assert c in more && forall e :: e in tried ==> e in more;
    if Moves(mid, c, d) {
      MovesWasEligible(before, mid, legacyRoot, root, tried, c);
      NothingBelow(mid, d);
      forall p | p in before && (forall e :: e in more ==> !Concerned(before, legacyRoot, root, e, p))
          ensures p in fs && fs[p] == before[p] {
        assert !Concerned(before, legacyRoot, root, c, p);
      }
      forall p | p in fs && p !in before
        ensures exists e :: e in more && Eligible(before, legacyRoot, root, e)
                  && (Destination(e, root).value <= p || p <= Destination(e, root).value)
      {
        if p !in mid { assert d <= p || p <= d; }
      }
    }
  }

  lemma StepKeepsPass(
      before: Fs, mid: Fs, fs: Fs, legacyRoot: Path, root: Path, candidates: seq<Path>, n: nat, clean: bool,
      moved: bool)
    requires EntriesApart(legacyRoot, root) && n < |candidates|
    requires forall c :: c in candidates ==> Considered(before, legacyRoot, c)
    requires forall i, j :: 0 <= i < j < |candidates| ==> candidates[i] != candidates[j]
    requires PassSoFar(before, mid, legacyRoot, root, candidates, n, clean)
    requires Destination(candidates[n], root).Some? && Tree(fs)
    requires MoveOutcome(mid, fs, candidates[n], Destination(candidates[n], root).value)
    requires moved && Moves(mid, candidates[n], Destination(candidates[n], root).value) ==>
               Exists(fs, Destination(candidates[n], root).value) && candidates[n] !in fs
    ensures PassSoFar(before, fs, legacyRoot, root, candidates, n + 1, clean && moved)
  {
    hide NoLoss, NoClobber, NothingElse, MoveOutcome, SettledEntry, SameBelow, Tree, Brought, Eligible, Moves, Exists,
        Destination;
    var c := candidates[n];
    assert forall k :: 0 <= k < |candidates| ==> candidates[k] in candidates;
    assert Legacy(legacyRoot, root, c);
    assert candidates[..n + 1] == candidates[..n] + [c];
    StepKeepsLoss(before, mid, fs, legacyRoot, root, c);
    StepKeepsRoot(before, mid, fs, legacyRoot, root, candidates[..n], c);
    StepOnlyShrinks(before, mid, fs, legacyRoot, root, c);
    forall k | n + 1 <= k < |candidates|
        ensures SameBelow(before, fs, candidates[k]) || Destination(candidates[k], root).None? {
      if Destination(candidates[k], root).Some? { StepKeepsLater(before, mid, fs, legacyRoot, root, c, candidates[k]); }
    }
    if clean && moved {
      StepSettles(mid, fs, c, Destination(c, root).value, moved);
      forall k | 0 <= k < n && Destination(candidates[k], root).Some?
        ensures SettledEntry(fs, candidates[k], Destination(candidates[k], root).value)
      {
        StepKeepsSettled(mid, fs, legacyRoot, root, c, candidates[k]);
      }
      forall k | 0 <= k < n + 1 && Eligible(before, legacyRoot, root, candidates[k])
        ensures Brought(before, fs, legacyRoot, root, candidates, k)
      {
        if k < n {
          StepKeepsBrought(before, mid, fs, legacyRoot, root, candidates, n, k);
        } else {
          StepBrings(before, mid, fs, legacyRoot, root, candidates, n);
        }
      }
    }
  }

  lemma StepSettles(mid: Fs, fs: Fs, c: Path, d: Path, moved: bool)
    requires MoveOutcome(mid, fs, c, d)
    requires moved && Moves(mid, c, d) ==> Exists(fs, d) && c !in fs
    ensures moved ==> SettledEntry(fs, c, d)
  {
  }

  lemma {:induction false} StepKeepsBrought(
      before: Fs, mid: Fs, fs: Fs, legacyRoot: Path, root: Path, candidates: seq<Path>, n: nat, k: nat)
    requires EntriesApart(legacyRoot, root) && k < n < |candidates|
    requires forall c :: c in candidates ==> Considered(before, legacyRoot, c)
    requires Destination(candidates[n], root).Some?
    requires MoveOutcome(mid, fs, candidates[n], Destination(candidates[n], root).value)
    requires Brought(before, mid, legacyRoot, root, candidates, k)
    ensures Brought(before, fs, legacyRoot, root, candidates, k)
  {
    hide Destination, Considered, Moves, SameTree, Delivered;
    var c, d := candidates[n], Destination(candidates[k], root);
    var m :| 0 <= m <= k && Gone(before, mid, legacyRoot, root, candidates[m], d);
    assert candidates[k] in candidates && c in candidates;
    LegacyOf(before, legacyRoot, root, c);
    LegacyOf(before, legacyRoot, root, candidates[k]);
    LegacyOf(before, legacyRoot, root, candidates[m]);
    DestinationKept(mid, fs, root, c, Destination(c, root).value, d.value);
    assert d.value <= d.value;
    StaysGone(mid, fs, legacyRoot, root, c, candidates[m]);
    assert Gone(before, fs, legacyRoot, root, candidates[m], d);
  }

  lemma LegacyOf(fs: Fs, legacyRoot: Path, root: Path, c: Path)
    requires Considered(fs, legacyRoot, c) && Destination(c, root).Some?
    ensures Legacy(legacyRoot, root, c)
  {
  }

  lemma StaysGone(mid: Fs, fs: Fs, legacyRoot: Path, root: Path, c: Path, e: Path)
    requires EntriesApart(legacyRoot, root) && Legacy(legacyRoot, root, c) && Legacy(legacyRoot, root, e)
    requires MoveOutcome(mid, fs, c, Destination(c, root).value)
    requires e !in mid
    ensures e !in fs
  {
    assert e <= e;
    if e != c { OtherEntryKept(mid, fs, legacyRoot, root, c, e); }
  }

  /** A candidate to be moved is moved by this step, or one with the same destination was before it. */
  lemma {:induction false} StepBrings(
      before: Fs, mid: Fs, fs: Fs, legacyRoot: Path, root: Path, candidates: seq<Path>, n: nat)
    requires EntriesApart(legacyRoot, root) && n < |candidates|
    requires forall c :: c in candidates ==> Considered(before, legacyRoot, c)
    requires PassSoFar(before, mid, legacyRoot, root, candidates, n, true)
    requires Eligible(before, legacyRoot, root, candidates[n])
    requires MoveOutcome(mid, fs, candidates[n], Destination(candidates[n], root).value)
    requires Moves(mid, candidates[n], Destination(candidates[n], root).value) ==>
               Exists(fs, Destination(candidates[n], root).value) && candidates[n] !in fs
    ensures Brought(before, fs, legacyRoot, root, candidates, n)
  {
    hide Destination, Considered, SameTree, Delivered, NoLoss, Tree, Brought, NoClobber, NothingElse, SettledEntry,
        EntriesApart;
    var c, d := candidates[n], Destination(candidates[n], root);
    if Moves(mid, c, d.value) {
      assert Gone(before, fs, legacyRoot, root, c, d);
      BroughtBy(before, fs, legacyRoot, root, candidates, n, n);
    } else {
      assert c <= c && Exists(mid, c);
      var m := ArrivedFrom(before, mid, legacyRoot, root, candidates, n, c);
      assert Brought(before, mid, legacyRoot, root, candidates, m);
      BroughtAgain(before, mid, legacyRoot, root, candidates, m, n);
    }
  }

  lemma BroughtBy(before: Fs, fs: Fs, legacyRoot: Path, root: Path, candidates: seq<Path>, m: nat, k: nat)
    requires m <= k < |candidates| && Destination(candidates[k], root).Some?
    requires Exists(fs, Destination(candidates[k], root).value)
    requires Gone(before, fs, legacyRoot, root, candidates[m], Destination(candidates[k], root))
    ensures Brought(before, fs, legacyRoot, root, candidates, k)
  {
  }

  lemma BroughtAgain(before: Fs, fs: Fs, legacyRoot: Path, root: Path, candidates: seq<Path>, m: nat, k: nat)
    requires m <= k < |candidates| && Brought(before, fs, legacyRoot, root, candidates, m)
    requires Destination(candidates[m], root) == Destination(candidates[k], root)
    ensures Brought(before, fs, legacyRoot, root, candidates, k)
  {
    hide Gone;
    var j :| 0 <= j <= m && Gone(before, fs, legacyRoot, root, candidates[j], Destination(candidates[m], root));
    BroughtBy(before, fs, legacyRoot, root, candidates, j, k);
  }

  /** What newly exists at a destination came from a candidate tried before with that destination. */
  lemma ArrivedFrom(
      before: Fs, mid: Fs, legacyRoot: Path, root: Path, candidates: seq<Path>, n: nat, c: Path) returns (m: nat)
    requires EntriesApart(legacyRoot, root) && n <= |candidates|
    requires Eligible(before, legacyRoot, root, c) && Exists(mid, Destination(c, root).value)
    requires NoClobber(before, mid, legacyRoot, root, candidates[..n])
              && NothingElse(before, mid, legacyRoot, root, candidates[..n])
    ensures m < n && Eligible(before, legacyRoot, root, candidates[m])
              && Destination(candidates[m], root) == Destination(c, root)
  {
    hide Destination, Considered;
    var d, tried := Destination(c, root).value, candidates[..n];
    LegacyOf(before, legacyRoot, root, c);
    var e: Path;
    if d in before {
      e :| e in tried && Concerned(before, legacyRoot, root, e, d);
      LegacyOf(before, legacyRoot, root, e);
      assert Apart(e, d);
    } else {
      e :| e in tried && Eligible(before, legacyRoot, root, e)
          && (Destination(e, root).value <= d || d <= Destination(e, root).value);
      assert |Destination(e, root).value| == |d|;
    }
    assert Destination(e, root).value == d;
    m :| 0 <= m < n && tried[m] == e;
  }

  lemma StepKeepsLater(before: Fs, mid: Fs, fs: Fs, legacyRoot: Path, root: Path, c: Path, later: Path)
    requires EntriesApart(legacyRoot, root)
    requires Legacy(legacyRoot, root, c) && Legacy(legacyRoot, root, later) && later != c
    requires MoveOutcome(mid, fs, c, Destination(c, root).value)
    requires SameBelow(before, mid, later)
    ensures SameBelow(before, fs, later)
  {
    OtherEntryKept(mid, fs, legacyRoot, root, c, later);
  }

  lemma StepOnlyShrinks(before: Fs, mid: Fs, fs: Fs, legacyRoot: Path, root: Path, c: Path)
    requires EntriesApart(legacyRoot, root) && Legacy(legacyRoot, root, c)
    requires MoveOutcome(mid, fs, c, Destination(c, root).value)
    requires forall e, p :: Legacy(legacyRoot, root, e) && e <= p && p in mid ==> p in before && mid[p] == before[p]
    ensures forall e, p :: Legacy(legacyRoot, root, e) && e <= p && p in fs ==> p in before && fs[p] == before[p]
  {
    hide Destination, SameTree, Delivered, Candidate, EntriesApart;
    forall e, p | Legacy(legacyRoot, root, e) && e <= p && p in fs ensures p in before && fs[p] == before[p] {
      if e != c { OtherEntryKept(mid, fs, legacyRoot, root, c, e); }
    }
  }

  lemma StepKeepsSettled(mid: Fs, fs: Fs, legacyRoot: Path, root: Path, c: Path, other: Path)
    requires EntriesApart(legacyRoot, root)
    requires Legacy(legacyRoot, root, c) && Legacy(legacyRoot, root, other) && other != c
    requires MoveOutcome(mid, fs, c, Destination(c, root).value)
    requires SettledEntry(mid, other, Destination(other, root).value)
    ensures SettledEntry(fs, other, Destination(other, root).value)
  {
    var d := Destination(other, root).value;
    OtherEntryKept(mid, fs, legacyRoot, root, c, other);
    if Exists(mid, d) { DestinationKept(mid, fs, root, c, Destination(c, root).value, d); }
  }

  lemma PassDone(before: Fs, fs: Fs, legacyRoot: Path, root: Path, candidates: seq<Path>, clean: bool, complete: bool)
    requires PassSoFar(before, fs, legacyRoot, root, candidates, |candidates|, clean)
    requires |candidates| > 0 && candidates[0] == legacyRoot + ["adb", "adbkey"]
    requires complete ==>
              forall p :: p in before && |p| == |legacyRoot| + 1 && legacyRoot <= p && before[p] == Dir ==>
              p in candidates
    ensures Tree(fs) && NoLoss(before, fs, legacyRoot, root) && OthersKept(before, fs, legacyRoot, root)
    ensures complete && clean ==> Settled(fs, legacyRoot, root)
  {
    hide NoLoss, SameBelow, SettledEntry, Tree, Destination, Brought, Moves, Exists;
    assert candidates[..|candidates|] == candidates;
    if complete && clean {
      forall c | Considered(fs, legacyRoot, c) && Destination(c, root).Some?
        ensures SettledEntry(fs, c, Destination(c, root).value)
      {
        assert Legacy(legacyRoot, root, c) && c <= c;
        assert c in candidates;
        var k :| 0 <= k < |candidates| && candidates[k] == c;
      }
    }
  }

  /** A complete pass without failures alters something under the data root whenever the layout was troubled. */
  lemma CleanPassAlters(before: Fs, fs: Fs, legacyRoot: Path, root: Path, candidates: seq<Path>)
    requires EntriesApart(legacyRoot, root)
    requires PassSoFar(before, fs, legacyRoot, root, candidates, |candidates|, true)
    requires |candidates| > 0 && candidates[0] == legacyRoot + ["adb", "adbkey"]
    requires forall i, j :: 0 <= i < j < |candidates| ==> candidates[i] != candidates[j]
    requires forall p :: p in candidates && p != candidates[0] ==> |p| == |legacyRoot| + 1 && legacyRoot <= p
    requires forall p :: p in before && |p| == |legacyRoot| + 1 && legacyRoot <= p && before[p] == Dir ==>
              p in candidates
    ensures Unaltered(before, fs, root) ==> Untroubled(before, legacyRoot, root)
  {
    hide NoLoss, SameBelow, SettledEntry, Tree, Destination, NoClobber, NothingElse;
    forall c | Unaltered(before, fs, root) && Eligible(before, legacyRoot, root, c)
      ensures !(root <= c) && Destination(c, root).value !in before
    {
      assert c in candidates;
      var k :| 0 <= k < |candidates| && candidates[k] == c;
      assert Brought(before, fs, legacyRoot, root, candidates, k);
      var m :| 0 <= m <= k && Gone(before, fs, legacyRoot, root, candidates[m], Destination(c, root));
      if root <= c { AlsoUnderRoot(before, legacyRoot, root, candidates, k, m); }
    }
  }

  /** If a candidate lies in the data root, so does every earlier one with its destination. */
  lemma AlsoUnderRoot(before: Fs, legacyRoot: Path, root: Path, candidates: seq<Path>, k: nat, m: nat)
    requires EntriesApart(legacyRoot, root) && m <= k < |candidates|
    requires candidates[0] == legacyRoot + ["adb", "adbkey"]
    requires forall i, j :: 0 <= i < j < |candidates| ==> candidates[i] != candidates[j]
    requires forall p :: p in candidates && p != candidates[0] ==> |p| == |legacyRoot| + 1 && legacyRoot <= p
    requires Eligible(before, legacyRoot, root, candidates[k]) && root <= candidates[k]
    ensures root <= candidates[m]
  {
    hide Destination;
    var c := candidates[k];
    LegacyOf(before, legacyRoot, root, c);
    assert candidates[k] in candidates && candidates[m] in candidates;
    if m < k {
      assert c != candidates[0];
      assert Apart(c, Destination(c, root).value);
      assert |root| == |c| ==> root == c;
      TakePrefix(root, c, |root|);
      assert root <= legacyRoot by { assert root == c[..|root|] == legacyRoot[..|root|]; }
      PrefixTrans(root, legacyRoot, candidates[m]);
      assert legacyRoot <= candidates[m];
    }
  }

  // ---------------------------------------------------------------- when the guarantees apply

  /** What a caller can check before a pass. */
  ghost predicate NoOverlap(legacyRoot: Path, root: Path) {
    && !(root <= legacyRoot)
    && root != legacyRoot + ["adb"]
    && !(legacyRoot + ["adb", "adbkey"] <= root)
    && (legacyRoot < root ==> Destination(root[..|legacyRoot| + 1], root).None?)
  }

  /** The layout of the data root: the two-level paths that some legacy name maps to. */
  predicate IsDestination(root: Path, d: Path) {
    && |d| == |root| + 2 && root <= d
    && var category, name := d[|root|], d[|root| + 1];
       || ((category == "work" || category == "outputs") && name != "")
       || (category == "backups" && "backup_" <= name)
       || (category == "adb" && name == "adbkey")
  }

  predicate IsCategory(name: string) {
    name == "work" || name == "outputs" || name == "backups" || name == "adb"
  }

  /** What a caller can check so that no legacy entry meets a destination: the data root is not below a legacy entry,
      and the legacy root is neither a category of the data root nor inside a destination. */
  ghost predicate NoClash(legacyRoot: Path, root: Path) {
    && legacyRoot != root
    && (legacyRoot < root ==> Destination(root[..|legacyRoot| + 1], root).None?)
    && !(legacyRoot + ["adb", "adbkey"] <= root)
    && (root < legacyRoot && |legacyRoot| == |root| + 1 ==> !IsCategory(legacyRoot[|root|]))
    && (root < legacyRoot && |legacyRoot| >= |root| + 2 ==> !IsDestination(root, legacyRoot[..|root| + 2]))
  }

  lemma DestinationIs(c: Path, root: Path)
    ensures Destination(c, root).Some? ==> IsDestination(root, Destination(c, root).value)
  {
  }

  /** The legacy names of each category, and where each belongs. */
  lemma NamesFor(legacyRoot: Path, root: Path, name: string)
    ensures name != "" ==> Destination(legacyRoot + ["work_" + name], root) == Some(root + ["work", name])
    ensures name != "" ==> Destination(legacyRoot + ["output_" + name], root) == Some(root + ["outputs", name])
    ensures "backup_" <= name ==> Destination(legacyRoot + [name], root) == Some(root + ["backups", name])
    ensures Destination(legacyRoot + ["adb", "adbkey"], root) == Some(root + ["adb", "adbkey"])
  {
    assert "adbkey"[0] == 'a' && ("work_" + name)[0] == 'w' && ("output_" + name)[0] == 'o';
    assert ("work_" + name)[|"work_"|..] == name && ("output_" + name)[|"output_"|..] == name;
    if "backup_" <= name { assert name[0] == 'b'; }
  }

  /** Every path of the layout is the destination of some legacy entry. */
  lemma DestinationReached(legacyRoot: Path, root: Path, d: Path) returns (e: Path)
    requires IsDestination(root, d)
    ensures Legacy(legacyRoot, root, e) && Destination(e, root) == Some(d)
  {
    var category, name := d[|root|], d[|root| + 1];
    assert d == root + [category, name];
    NamesFor(legacyRoot, root, name);
    if category == "work" {
      e := legacyRoot + ["work_" + name];
    } else if category == "outputs" {
      e := legacyRoot + ["output_" + name];
    } else if category == "backups" {
      e := legacyRoot + [name];
    } else {
      e := legacyRoot + ["adb", "adbkey"];
    }
  }

  /** Without a clash, an entry and a path of the layout never meet. */
  lemma NoClashApart(legacyRoot: Path, root: Path, c: Path, d: Path)
    requires NoClash(legacyRoot, root) && Legacy(legacyRoot, root, c) && IsDestination(root, d)
    ensures Apart(c, d)
  {
    if |c| == |legacyRoot| + 1 {
      ShallowApart(legacyRoot, root, c, d);
    } else {
      KeyApart(legacyRoot, root, c, d);
    }
  }

  lemma ShallowApart(legacyRoot: Path, root: Path, c: Path, d: Path)
    requires NoClash(legacyRoot, root) && Legacy(legacyRoot, root, c) && IsDestination(root, d)
    requires |c| == |legacyRoot| + 1
    ensures Apart(c, d)
  {
    var n, m := |legacyRoot|, |root|;
    TakePrefix(c, d, n);
    TakePrefix(d, c, m);
    if n < m {
      TakePrefix(c, d, n + 1);
      TakePrefix(d, c, n + 1);
      assert d[..n] == root[..n] && d[..n + 1] == root[..n + 1];
    } else if n == m + 1 {
      TakePrefix(c, d, m + 1);
      TakePrefix(d, c, m + 1);
      assert c[..m + 1] == legacyRoot && d[..m + 1][m] == d[m];
    } else if n > m + 1 {
      TakePrefix(d, c, m + 2);
      assert c[..m + 2] == legacyRoot[..m + 2];
    }
  }

  lemma KeyApart(legacyRoot: Path, root: Path, c: Path, d: Path)
    requires NoClash(legacyRoot, root) && IsDestination(root, d)
    requires c == legacyRoot + ["adb", "adbkey"]
    ensures Apart(c, d)
  {
    var n, m := |legacyRoot|, |root|;
    assert c[..n] == legacyRoot && d[..m] == root;
    if n < m {
      TakePrefix(c, d, n + 2);
      if n + 2 <= m { assert d[..n + 2] == root[..n + 2]; } else { assert d[m] == d[..n + 2][m]; }
    } else if n == m {
      TakePrefix(c, d, m);
      TakePrefix(d, c, m);
    } else if n == m + 1 {
      TakePrefix(d, c, m + 1);
      assert c[..m + 1] == legacyRoot && d[..m + 1][m] == d[m] && legacyRoot[..m] == c[..m];
      TakePrefix(d, c, m);
    } else {
      TakePrefix(d, c, m + 2);
      assert c[..m + 2] == legacyRoot[..m + 2];
    }
  }

  /** With a clash, some entry and some destination do meet. */
  lemma ClashMeets(legacyRoot: Path, root: Path) returns (c: Path, e: Path)
    requires !NoClash(legacyRoot, root)
    ensures Legacy(legacyRoot, root, c) && Legacy(legacyRoot, root, e) && !Apart(c, Destination(e, root).value)
  {
    var key := legacyRoot + ["adb", "adbkey"];
    assert Destination(key, root) == Some(root + ["adb", "adbkey"]);
    if legacyRoot == root || key <= root {
      c, e := key, key;
    } else if legacyRoot < root && Destination(root[..|legacyRoot| + 1], root).Some? {
      c := root[..|legacyRoot| + 1];
      e := c;
    } else if |legacyRoot| == |root| + 1 {
      c, e := CategoryMeets(legacyRoot, root);
    } else {
      var d := legacyRoot[..|root| + 2];
      e := DestinationReached(legacyRoot, root, d);
      NamesFor(legacyRoot, root, "x");
      c := legacyRoot + ["work_" + "x"];
      assert d <= legacyRoot <= c;
    }
  }

  lemma CategoryMeets(legacyRoot: Path, root: Path) returns (c: Path, e: Path)
    requires root < legacyRoot && |legacyRoot| == |root| + 1 && IsCategory(legacyRoot[|root|])
    ensures Legacy(legacyRoot, root, c) && Legacy(legacyRoot, root, e) && !Apart(c, Destination(e, root).value)
  {
    var category := legacyRoot[|root|];
    assert legacyRoot == root + [category];
    var name := if category == "backups" then "backup_" + "x"
                else if category == "adb" then "adbkey"
                else "work_" + "x";
    NamesFor(legacyRoot, root, name);
    NamesFor(legacyRoot, root, "x");
    assert "backup_" <= "backup_" + "x";
    c := legacyRoot + [name];
    assert c == root + [category, name];
    e := if category == "work" then legacyRoot + ["work_" + name]
         else if category == "outputs" then legacyRoot + ["output_" + name] else c;
    assert Destination(e, root) == Some(c);
  }

  /** Exactly when no legacy entry meets a destination, in terms of the two roots. */
  lemma EntriesApartExactly(legacyRoot: Path, root: Path)
    ensures EntriesApart(legacyRoot, root) <==> NoClash(legacyRoot, root)
  {
    if NoClash(legacyRoot, root) {
      forall c, e | Legacy(legacyRoot, root, c) && Legacy(legacyRoot, root, e)
          ensures Apart(c, Destination(e, root).value) {
        DestinationIs(e, root);
        NoClashApart(legacyRoot, root, c, Destination(e, root).value);
      }
    } else {
      var c, e := ClashMeets(legacyRoot, root);
      assert !Apart(c, Destination(e, root).value);
    }
  }

  /** Roots apart keep the entries apart from the destinations. */
  lemma RootsApartSuffice(legacyRoot: Path, root: Path)
    requires RootsApart(legacyRoot, root)
    ensures EntriesApart(legacyRoot, root)
  {
    forall c, e | Legacy(legacyRoot, root, c) && Legacy(legacyRoot, root, e)
        ensures Apart(c, Destination(e, root).value) {
      ApartFromDestination(c, root, Destination(e, root).value);
    }
  }

  /** Exactly when every legacy entry is apart from the data root. */
  lemma RootsApartExactly(legacyRoot: Path, root: Path)
    ensures RootsApart(legacyRoot, root) <==> NoOverlap(legacyRoot, root)
  {
    var key := legacyRoot + ["adb", "adbkey"];
    assert Legacy(legacyRoot, root, key);
    PrefixTrans(root, legacyRoot, key);
    assert legacyRoot + ["adb"] <= key by { assert key[..|legacyRoot| + 1] == legacyRoot + ["adb"]; }
    if RootsApart(legacyRoot, root) {
      if legacyRoot < root {
        var below := root[..|legacyRoot| + 1];
        assert below <= root && !Apart(below, root) && Candidate(legacyRoot, below);
      }
    }
    if NoOverlap(legacyRoot, root) {
      forall c | Legacy(legacyRoot, root, c) ensures Apart(c, root) {
        NoOverlapApart(legacyRoot, root, c);
      }
    }
  }

  lemma NoOverlapApart(legacyRoot: Path, root: Path, c: Path)
    requires NoOverlap(legacyRoot, root) && Legacy(legacyRoot, root, c)
    ensures Apart(c, root)
  {
    var key := legacyRoot + ["adb", "adbkey"];
    PrefixesCompare(root, legacyRoot, c);
    PrefixTrans(legacyRoot, c, root);
    if |legacyRoot| < |root| {
      if c == key {
        TakePrefix(root, key, |legacyRoot| + 1);
        assert key[..|legacyRoot| + 1] == legacyRoot + ["adb"];
      } else {
        TakePrefix(c, root, |legacyRoot| + 1);
        TakePrefix(root, c, |legacyRoot| + 1);
      }
    }
  }

  lemma TakePrefix(a: Path, b: Path, k: nat)
    ensures a <= b && k <= |a| ==> a[..k] == b[..k]
  {
  }

  /** A concrete troubled layout: roots apart, a key file to be moved, and a dangling link in its place. */
  lemma DanglingLinkTroubles() returns (fs: Fs)
    ensures Tree(fs) && RootsApart(["l"], ["d"]) && EntriesApart(["l"], ["d"])
    ensures Eligible(fs, ["l"], ["d"], ["l"] + ["adb", "adbkey"]) && !Untroubled(fs, ["l"], ["d"])
  {
    var c, d := ["l"] + ["adb", "adbkey"], ["d"] + ["adb", "adbkey"];
    assert ["l"][0] == "l" && ["d"][0] == "d" && "l"[0] != "d"[0];
    assert c[0] == "l" && d[0] == "d";
    RootsApartExactly(["l"], ["d"]);
    RootsApartSuffice(["l"], ["d"]);
    fs := map[[] := Dir, c[..1] := Dir, c[..2] := Dir, c := File("key"), d[..1] := Dir, d[..2] := Dir, d := Link(None)];
    assert c[..2][..1] == c[..1] && d[..2][..1] == d[..1];
    assert c[..1][0] == c[..2][0] == "l" && d[..1][0] == d[..2][0] == "d";
    ParentsMakeTree(fs);
    assert Destination(c, ["d"]) == Some(d);
    assert fs[c] == File("key") && fs[d] == Link(None);
  }

  lemma {:induction false} ParentsMakeTree(fs: Fs)
    requires forall p :: p in fs && |p| > 0 ==> p[..|p| - 1] in fs && fs[p[..|p| - 1]] == Dir
    ensures Tree(fs)
  {
    forall p, k | p in fs && 0 <= k < |p| ensures p[..k] in fs && fs[p[..k]] == Dir {
      AncestorsPresent(fs, p, k);
    }
  }

  lemma {:induction false} AncestorsPresent(fs: Fs, p: Path, k: nat)
    requires forall p :: p in fs && |p| > 0 ==> p[..|p| - 1] in fs && fs[p[..|p| - 1]] == Dir
    requires p in fs && k < |p|
    ensures p[..k] in fs && fs[p[..k]] == Dir
    decreases |p|
  {
    var parent := p[..|p| - 1];
    assert p[..k] == parent[..k];
    if k == |p| - 1 { assert p[..k] == parent; } else { AncestorsPresent(fs, parent, k); }
  }
}
