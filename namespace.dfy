/**
 * The package registry: a tree of package nodes, each holding the top-level message types
 * registered in it. The tree is kept as a map from package path (the dotted name split into
 * segments) to node; the children of a node are the keys one segment longer, and its parent is
 * the key one segment shorter. `Registry` replaces the process-wide root node with an object
 * that is created once per request and passed to every lookup.
 */
module Namespace {
  import opened Wrappers
  import opened Strings
  import opened Descriptors

  /** A package node: its dotted name and its `types` map. */
  datatype Package = Package(name: string, types: map<string, MessageDescriptor>)

  type Packages = map<seq<string>, Package>

  /** The path of a node's parent: the path without its last segment. */
  function Parent(path: seq<string>): seq<string>
    requires path != []
  {
    path[..|path| - 1]
  }

  /** The name the registry gives a node: the parent's name, a dot, the segment; the root is "". */
  function NameOf(path: seq<string>): string
    decreases |path|
  {
    if path == [] then "" else NameOf(Parent(path)) + "." + path[|path| - 1]
  }

  /** A node as `registerType` creates it: named after its path, with no types. */
  function NewPackage(path: seq<string>): Package
  {
    Package(NameOf(path), map[])
  }

  /** Every prefix of `path`, the path itself and the root included. */
  function Prefixes(path: seq<string>): (r: set<seq<string>>)
    ensures [] in r && path in r
  {
    assert path[..0] == [] && path[..|path|] == path;
    set k | 0 <= k <= |path| :: path[..k]
  }

  lemma PrefixesOfRoot()
    ensures Prefixes([]) == {[]}
  {
  }

  lemma PrefixesSnoc(path: seq<string>)
    requires path != []
    ensures Prefixes(path) == Prefixes(Parent(path)) + {path}
  {
    var parent := Parent(path);
    forall k | 0 <= k <= |parent| ensures parent[..k] == path[..k] { }
    forall p | p in Prefixes(path) ensures p in Prefixes(parent) + {path}
    {
      var k :| 0 <= k <= |path| && p == path[..k];
      if k < |path| { assert p == parent[..k]; }
    }
  }

  /**
   * The registry's invariant: the root exists, every node's parent exists, every node carries
   * the name of its path, and no node's first segment is empty (the root has no "" child).
   */
  predicate WellFormed(pkgs: Packages)
  {
    && [] in pkgs
    && (forall path {:trigger Parent(path)} :: path in pkgs && path != [] ==> Parent(path) in pkgs)
    && (forall path :: path in pkgs ==> pkgs[path].name == NameOf(path))
    && (forall path :: path in pkgs && path != [] ==> path[0] != "")
  }

  /** A registry holding only the root. */
  const Root: Packages := map[[] := Package("", map[])]

  /** Every prefix of a node's path is a node too. */
  lemma {:induction false} PrefixesPresent(pkgs: Packages, path: seq<string>)
    requires WellFormed(pkgs) && path in pkgs
    ensures forall k :: 0 <= k <= |path| ==> path[..k] in pkgs
    decreases |path|
  {
    if path != [] {
      var parent := Parent(path);
      PrefixesPresent(pkgs, parent);
      assert forall k :: 0 <= k < |path| ==> path[..k] == parent[..k];
    }
    assert path[..|path|] == path;
  }

  /** The segments `registerType` walks: empty segments are skipped while still at the root. */
  function DropLeadingEmpty(segs: seq<string>): (r: seq<string>)
    ensures r != [] ==> r[0] != ""
  {
    if segs != [] && segs[0] == "" then DropLeadingEmpty(segs[1..]) else segs
  }

  /** Skipping step by step, as the registration loop does, drops exactly the leading empty segments. */
  lemma {:induction false} DropLeadingEmptySnoc(segs: seq<string>, x: string)
    ensures DropLeadingEmpty(segs + [x]) ==
      if DropLeadingEmpty(segs) == [] && x == "" then [] else DropLeadingEmpty(segs) + [x]
  {
    if segs != [] && segs[0] == "" {
      assert (segs + [x])[1..] == segs[1..] + [x];
      DropLeadingEmptySnoc(segs[1..], x);
    } else if segs == [] {
      assert [] + [x] == [x];
    }
  }

  /** The path of the node a message of package `pkgName` is registered in (nil package: the root). */
  function PackagePath(pkgName: Option<string>): seq<string>
  {
    if pkgName.None? then [] else DropLeadingEmpty(SplitDots(pkgName.value))
  }

  /** A package written with a leading dot is registered in the same node as without it. */
  lemma LeadingDotRegistersSamePath(s: string)
    ensures PackagePath(Some("." + s)) == PackagePath(Some(s))
  {
    SplitDotsLeadingDot(s);
    assert ("." + s) == [Dot] + s;
    var segs := SplitDots(s);
    assert ([""] + segs)[1..] == segs;
  }

  /** Creates every missing node on the way to `path`; existing nodes are kept as they are. */
  function EnsurePath(pkgs: Packages, path: seq<string>): (r: Packages)
    requires [] in pkgs
    ensures [] in r && path in r
    decreases |path|
  {
    if path == [] then pkgs
    else
      var q := EnsurePath(pkgs, Parent(path));
      if path in q then q else q[path := NewPackage(path)]
  }

  /** The nodes after `EnsurePath`: the old ones, unchanged, and every prefix of the path, new ones named after their path. */
  lemma {:induction false} EnsurePathNodes(pkgs: Packages, path: seq<string>)
    requires [] in pkgs
    ensures EnsurePath(pkgs, path).Keys == pkgs.Keys + Prefixes(path)
    ensures forall p :: p in EnsurePath(pkgs, path) ==>
      EnsurePath(pkgs, path)[p] == if p in pkgs then pkgs[p] else NewPackage(p)
    decreases |path|
  {
    if path == [] {
      PrefixesOfRoot();
    } else {
      EnsurePathNodes(pkgs, Parent(path));
      PrefixesSnoc(path);
    }
  }

  /**
   * The registry after `registerType(pkgName, msg)`: the nodes on the way to the package are
   * created where missing, and the package's `types` maps the message's name to it. No other
   * node changes.
   */
  function Registered(pkgs: Packages, pkgName: Option<string>, msg: MessageDescriptor): (r: Packages)
    requires [] in pkgs
    ensures r.Keys == pkgs.Keys + Prefixes(PackagePath(pkgName))
    ensures forall p :: p in r && p != PackagePath(pkgName) ==>
      r[p] == if p in pkgs then pkgs[p] else NewPackage(p)
    ensures var path := PackagePath(pkgName);
      var before := if path in pkgs then pkgs[path] else NewPackage(path);
      r[path] == before.(types := before.types[msg.name := msg])
  {
    var path := PackagePath(pkgName);
    var q := EnsurePath(pkgs, path);
    EnsurePathNodes(pkgs, path);
    q[path := q[path].(types := q[path].types[msg.name := msg])]
  }

  /**
   * One step of the registration walk: entering child `node` of the node at `path`, created when
   * missing under the name `registerType` gives it (the parent's name, a dot, the segment).
   */
  lemma EnsurePathStep(pkgs: Packages, path: seq<string>, node: string)
    requires WellFormed(pkgs)
    ensures var q := EnsurePath(pkgs, path); var child := path + [node];
      path in q &&
      EnsurePath(pkgs, child) == if child in q then q else q[child := Package(q[path].name + "." + node, map[])]
  {
    var child := path + [node];
    assert Parent(child) == path;
    assert NameOf(child) == NameOf(path) + "." + node;
    EnsurePathNodes(pkgs, path);
  }

  /** Adding one node, named after its path, under an existing parent keeps the registry well formed. */
  lemma AddNodeWellFormed(pkgs: Packages, path: seq<string>)
    requires WellFormed(pkgs) && path != [] && Parent(path) in pkgs && path[0] != ""
    ensures WellFormed(pkgs[path := NewPackage(path)])
  {
  }

  /** Creating the nodes of a path whose first segment is not empty keeps the registry well formed. */
  lemma {:induction false} EnsurePathWellFormed(pkgs: Packages, path: seq<string>)
    requires WellFormed(pkgs)
    requires path != [] ==> path[0] != ""
    ensures WellFormed(EnsurePath(pkgs, path))
    decreases |path|
  {
    if path != [] {
      var parent := Parent(path);
      assert parent != [] ==> parent[0] == path[0];
      EnsurePathWellFormed(pkgs, parent);
      var q := EnsurePath(pkgs, parent);
      if path !in q {
        AddNodeWellFormed(q, path);
      }
    }
  }

  /** Registration stores the message in the node `EnsurePath` reaches. */
  lemma RegisteredAt(pkgs: Packages, pkgName: Option<string>, msg: MessageDescriptor, q: Packages)
    requires [] in pkgs && q == EnsurePath(pkgs, PackagePath(pkgName))
    ensures var path := PackagePath(pkgName);
      path in q && Registered(pkgs, pkgName, msg) == q[path := q[path].(types := q[path].types[msg.name := msg])]
  {
  }

  /** Registration keeps the registry well formed. */
  lemma RegisteredWellFormed(pkgs: Packages, pkgName: Option<string>, msg: MessageDescriptor)
    requires WellFormed(pkgs)
    ensures WellFormed(Registered(pkgs, pkgName, msg))
  {
    var path := PackagePath(pkgName);
    EnsurePathWellFormed(pkgs, path);
    var q := EnsurePath(pkgs, path);
    var r := Registered(pkgs, pkgName, msg);
    assert r.Keys == q.Keys;
    forall p | p in r ensures r[p].name == q[p].name { }
  }

  /** Registering two messages of the same name in the same package keeps only the second. */
  lemma RegisterOverwrites(pkgs: Packages, pkgName: Option<string>, first: MessageDescriptor, second: MessageDescriptor)
    requires [] in pkgs
    requires first.name == second.name
    ensures Registered(Registered(pkgs, pkgName, first), pkgName, second) == Registered(pkgs, pkgName, second)
  {
    var path := PackagePath(pkgName);
    var once := Registered(pkgs, pkgName, first);
    var twice := Registered(once, pkgName, second);
    var direct := Registered(pkgs, pkgName, second);
    assert twice.Keys == direct.Keys;
    forall p | p in twice ensures twice[p] == direct[p] { }
  }

  /** The registry object: one node per package path, starting from the root. */
  class Registry {
    var packages: Packages

    predicate Valid()
      reads this
    {
      WellFormed(packages)
    }

    constructor ()
      ensures Valid() && packages == Root
    {
      packages := Root;
    }

    /** The walk of `registerType`: from the root, down one segment at a time, creating each missing node. */
    method Walk(segs: seq<string>) returns (path: seq<string>)
      requires Valid()
      modifies this
      ensures path == DropLeadingEmpty(segs)
      ensures packages == EnsurePath(old(packages), path)
    {
      path := [];
      var i := 0;
      while i < |segs|
        invariant 0 <= i <= |segs|
        invariant path == DropLeadingEmpty(segs[..i])
        invariant packages == EnsurePath(old(packages), path)
      {
        var node := segs[i];
        assert segs[..i + 1] == segs[..i] + [node];
        DropLeadingEmptySnoc(segs[..i], node);
        if path == [] && node == "" {
          i := i + 1;
          continue;
        }
        EnsurePathStep(old(packages), path, node);
        var child := path + [node];
        if child !in packages {
          packages := packages[child := Package(packages[path].name + "." + node, map[])];
        }
        path := child;
        i := i + 1;
      }
      assert segs[..|segs|] == segs;
    }

    /** `registerType`: walks the package's segments from the root, creating missing nodes, and stores the message. */
    method Register(pkgName: Option<string>, msg: MessageDescriptor)
      requires Valid()
      modifies this
      ensures Valid()
      ensures packages == Registered(old(packages), pkgName, msg)
    {
      var path: seq<string> := [];
      if pkgName.Some? {
        path := Walk(SplitDots(pkgName.value));
      }
      RegisteredAt(old(packages), pkgName, msg, packages);
      RegisteredWellFormed(old(packages), pkgName, msg);
      packages := packages[path := packages[path].(types := packages[path].types[msg.name := msg])];
    }
  }
}
