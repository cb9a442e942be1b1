/**
 * Type-name resolution over the package registry: absolute names (leading dot) are resolved
 * from the root, other names from the current package and then from each enclosing package in
 * turn. Within one package a compound name `a.rest` is read as a child package `a` when one
 * exists, and only otherwise as a message `a` with the nested-type path `rest`.
 */
module Resolver {
  import opened Wrappers
  import opened Strings
  import opened Descriptors
  import opened Namespace

  /** The `types` map of the node at `path`; a path that is not a node has none. */
  function TypesAt(pkgs: Packages, path: seq<string>): map<string, MessageDescriptor>
  {
    if path in pkgs then pkgs[path].types else map[]
  }

  /** The first nested type with the given name, in declaration order. */
  function FindNested(nested: seq<MessageDescriptor>, name: string): (r: Option<MessageDescriptor>)
    ensures r.None? <==> forall i :: 0 <= i < |nested| ==> nested[i].name != name
    ensures r.Some? ==>
      exists i :: 0 <= i < |nested| && nested[i] == r.value && nested[i].name == name && (forall j :: 0 <= j < i ==> nested[j].name != name)
  {
    if nested == [] then None
    else if nested[0].name == name then Some(nested[0])
    else FindNested(nested[1..], name)
  }

  /** Follows a nested-type path component by component from `desc`. */
  function NestedLookup(desc: MessageDescriptor, components: seq<string>): Option<MessageDescriptor>
    decreases |components|
  {
    if components == [] then Some(desc)
    else match FindNested(desc.nestedTypes, components[0])
      case None => None
      case Some(nested) => NestedLookup(nested, components[1..])
  }

  /** A type reached through a non-empty nested path carries the path's last component as its name. */
  lemma {:induction false} NestedLookupName(desc: MessageDescriptor, components: seq<string>)
    requires components != [] && NestedLookup(desc, components).Some?
    ensures NestedLookup(desc, components).value.name == components[|components| - 1]
    decreases |components|
  {
    var nested := FindNested(desc.nestedTypes, components[0]).value;
    if |components| > 1 {
      NestedLookupName(nested, components[1..]);
    }
  }

  /** `relativelyLookupType`: resolves `name` inside the node at `path` only. */
  function RelativeLookup(pkgs: Packages, path: seq<string>, name: string): Option<MessageDescriptor>
    decreases |name|
  {
    var parts := SplitFirstDot(name);
    if |parts| == 1 then
      if name in TypesAt(pkgs, path) then Some(TypesAt(pkgs, path)[name]) else None
    else if path + [parts[0]] in pkgs then
      RelativeLookup(pkgs, path + [parts[0]], parts[1])
    else if parts[0] in TypesAt(pkgs, path) then
      NestedLookup(TypesAt(pkgs, path)[parts[0]], SplitDots(parts[1]))
    else None
  }

  /** The outward search of `lookupType`: this package first, then each ancestor up to the root. */
  function Outward(pkgs: Packages, path: seq<string>, name: string): Option<MessageDescriptor>
    decreases |path|
  {
    var found := RelativeLookup(pkgs, path, name);
    if found.Some? || path == [] then found else Outward(pkgs, Parent(path), name)
  }

  /** `lookupType`: a name with a leading dot is resolved from the root, any other by outward search. */
  function Resolve(pkgs: Packages, path: seq<string>, name: string): Option<MessageDescriptor>
  {
    if HasPrefix(name, ".") then RelativeLookup(pkgs, [], name[1..]) else Outward(pkgs, path, name)
  }

  /** `relativelyLookupPackage` from the root: the package's segments, when they name a node. */
  function PackageOf(pkgs: Packages, name: string): Option<seq<string>>
  {
    var path := SplitDots(name);
    if path in pkgs then Some(path) else None
  }

  /** `relativelyLookupNestedType`: for each component, the first nested type of that name. */
  method LookupNestedType(desc: MessageDescriptor, name: string) returns (r: Option<MessageDescriptor>)
    ensures r == NestedLookup(desc, SplitDots(name))
  {
    var components := SplitDots(name);
    var current := desc;
    var i := 0;
    while i < |components|
      invariant 0 <= i <= |components|
      invariant NestedLookup(current, components[i..]) == NestedLookup(desc, components)
    {
      var component := components[i];
      var nested := current.nestedTypes;
      var j := 0;
      while j < |nested| && nested[j].name != component
        invariant 0 <= j <= |nested|
        invariant forall k :: 0 <= k < j ==> nested[k].name != component
      {
        j := j + 1;
      }
      assert components[i..][0] == component && components[i..][1..] == components[i + 1..];
      if j == |nested| {
        return None;
      }
      assert FindNested(nested, component) == Some(nested[j]);
      current := nested[j];
      i := i + 1;
    }
    r := Some(current);
  }

  /** A path with a missing prefix is not a node. */
  lemma MissingPrefix(pkgs: Packages, path: seq<string>, k: nat)
    requires WellFormed(pkgs) && k <= |path| && path[..k] !in pkgs
    ensures path !in pkgs
  {
    if path in pkgs {
      PrefixesPresent(pkgs, path);
    }
  }

  /** `relativelyLookupPackage`: walks child nodes segment by segment from the root. */
  method LookupPackage(reg: Registry, name: string) returns (r: Option<seq<string>>)
    requires reg.Valid()
    ensures r == PackageOf(reg.packages, name)
  {
    var components := SplitDots(name);
    var path: seq<string> := [];
    var i := 0;
    while i < |components|
      invariant 0 <= i <= |components|
      invariant path == components[..i] && path in reg.packages
    {
      var child := path + [components[i]];
      assert child == components[..i + 1];
      if child !in reg.packages {
        MissingPrefix(reg.packages, components, i + 1);
        return None;
      }
      path := child;
      i := i + 1;
    }
    assert components[..|components|] == components;
    r := Some(path);
  }

  /**
   * `relativelyLookupType`: a name without a dot is looked up in this node's `types`; for
   * `a.rest`, an existing child package `a` continues the search, and otherwise message `a` of
   * this node is searched for the nested path `rest`.
   */
  method RelativelyLookupType(reg: Registry, path: seq<string>, name: string) returns (r: Option<MessageDescriptor>)
    ensures r == RelativeLookup(reg.packages, path, name)
    decreases |name|
  {
    var parts := SplitFirstDot(name);
    var types := TypesAt(reg.packages, path);
    if |parts| == 1 {
      if name in types {
        return Some(types[name]);
      }
      return None;
    }
    if path + [parts[0]] in reg.packages {
      r := RelativelyLookupType(reg, path + [parts[0]], parts[1]);
      return;
    }
    if parts[0] in types {
      r := LookupNestedType(types[parts[0]], parts[1]);
      return;
    }
    return None;
  }

  /** `lookupType`: absolute names from the root, otherwise this package and then each ancestor. */
  method LookupType(reg: Registry, path: seq<string>, name: string) returns (r: Option<MessageDescriptor>)
    ensures r == Resolve(reg.packages, path, name)
  {
    if HasPrefix(name, ".") {
      r := RelativelyLookupType(reg, [], name[1..]);
      return;
    }
    var scope := path;
    while true
      invariant Outward(reg.packages, scope, name) == Outward(reg.packages, path, name)
      decreases |scope|
    {
      var found := RelativelyLookupType(reg, scope, name);
      if found.Some? {
        return found;
      }
      if scope == [] {
        return None;
      }
      scope := Parent(scope);
    }
  }

  /** Among the scopes `path[..0]` (the root) to `path`, `path[..k]` is the innermost where `lookup` finds anything, and it finds `m`. */
  predicate NearestIn(lookup: seq<string> -> Option<MessageDescriptor>, path: seq<string>, m: MessageDescriptor, k: int)
  {
    0 <= k <= |path| && lookup(path[..k]) == Some(m) &&
    forall j :: k < j <= |path| ==> lookup(path[..j]).None?
  }

  /** When the innermost scope finds nothing, the nearest scope that does is found among the parent's scopes. */
  lemma NearestInParent(lookup: seq<string> -> Option<MessageDescriptor>, path: seq<string>, m: MessageDescriptor, k: int)
    requires path != [] && lookup(path).None?
    ensures NearestIn(lookup, path, m, k) <==> k < |path| && NearestIn(lookup, Parent(path), m, k)
  {
    var parent := Parent(path);
    assert path[..|path|] == path;
    if 0 <= k < |path| {
      assert parent[..k] == path[..k];
      forall j | k < j <= |parent| ensures parent[..j] == path[..j] { }
    }
  }

  /** The lookup of `name` inside one scope. */
  function InScope(pkgs: Packages, name: string): seq<string> -> Option<MessageDescriptor>
  {
    p => RelativeLookup(pkgs, p, name)
  }

  /** Scope `path[..k]` resolves `name` to `m`, and no nearer scope resolves it. */
  predicate NearestAt(pkgs: Packages, path: seq<string>, name: string, m: MessageDescriptor, k: int)
  {
    NearestIn(InScope(pkgs, name), path, m, k)
  }

  /**
   * The outward search returns `m` exactly when some enclosing scope resolves the name to `m`
   * and every nearer scope resolves nothing.
   */
  lemma {:induction false} OutwardFindsNearest(pkgs: Packages, path: seq<string>, name: string, m: MessageDescriptor)
    ensures Outward(pkgs, path, name) == Some(m) <==> exists k :: NearestAt(pkgs, path, name, m, k)
    decreases |path|
  {
    assert path[..|path|] == path;
    if RelativeLookup(pkgs, path, name).Some? {
      if RelativeLookup(pkgs, path, name) == Some(m) {
        assert NearestAt(pkgs, path, name, m, |path|);
      }
    } else if path == [] {
      assert forall k :: !NearestAt(pkgs, path, name, m, k);
    } else {
      OutwardFindsNearest(pkgs, Parent(path), name, m);
      forall k ensures NearestAt(pkgs, path, name, m, k) <==> k < |path| && NearestAt(pkgs, Parent(path), name, m, k) {
        NearestInParent(InScope(pkgs, name), path, m, k);
      }
    }
  }

  /** No scope from `path[..k]` out to `path` resolves `name`. */
  predicate NoneFrom(pkgs: Packages, path: seq<string>, name: string, k: nat)
  {
    forall j :: k <= j <= |path| ==> RelativeLookup(pkgs, path[..j], name).None?
  }

  /** The outward search finds nothing exactly when no enclosing scope, the root included, resolves the name. */
  lemma {:induction false} OutwardNotFound(pkgs: Packages, path: seq<string>, name: string)
    ensures Outward(pkgs, path, name).None? <==> NoneFrom(pkgs, path, name, 0)
    decreases |path|
  {
    assert path[..|path|] == path;
    if path != [] {
      var parent := Parent(path);
      OutwardNotFound(pkgs, parent, name);
      forall j | 0 <= j <= |parent| ensures parent[..j] == path[..j] { }
      assert NoneFrom(pkgs, path, name, 0) <==>
        NoneFrom(pkgs, parent, name, 0) && RelativeLookup(pkgs, path, name).None?;
    } else {
      assert path[..0] == path;
    }
  }

  /** Inside one scope, an existing child package named by the first component wins, even when it resolves nothing. */
  lemma ChildPackageTakesPrecedence(pkgs: Packages, path: seq<string>, first: string, rest: string)
    requires Dot !in first
    requires path + [first] in pkgs
    ensures RelativeLookup(pkgs, path, first + "." + rest) == RelativeLookup(pkgs, path + [first], rest)
  {
    SplitFirstDotAt(first, rest);
  }

  /** Without such a child package, the first component is read as a message and the rest as its nested path. */
  lemma MessageReadWithoutChildPackage(pkgs: Packages, path: seq<string>, first: string, rest: string)
    requires Dot !in first
    requires path + [first] !in pkgs
    ensures RelativeLookup(pkgs, path, first + "." + rest) ==
      if first in TypesAt(pkgs, path) then NestedLookup(TypesAt(pkgs, path)[first], SplitDots(rest)) else None
  {
    SplitFirstDotAt(first, rest);
  }

  /** A name without a dot is looked up in the node's own `types` only. */
  lemma SimpleNameLookup(pkgs: Packages, path: seq<string>, typeName: string)
    requires Dot !in typeName
    ensures RelativeLookup(pkgs, path, typeName) ==
      if typeName in TypesAt(pkgs, path) then Some(TypesAt(pkgs, path)[typeName]) else None
  {
    assert SplitFirstDot(typeName) == [typeName];
  }

  /** A dotted name made of the segments leading to a node, then a type name, resolves in that node. */
  lemma {:induction false} RelativeLookupAlongPath(pkgs: Packages, base: seq<string>, segs: seq<string>, typeName: string)
    requires base + segs in pkgs
    requires forall k :: 0 <= k <= |segs| ==> base + segs[..k] in pkgs
    requires forall seg :: seg in segs ==> Dot !in seg
    requires Dot !in typeName
    ensures RelativeLookup(pkgs, base, JoinDots(segs + [typeName])) ==
      if typeName in pkgs[base + segs].types then Some(pkgs[base + segs].types[typeName]) else None
    decreases |segs|
  {
    assert segs[..|segs|] == segs;
    if segs == [] {
      assert base + segs == base;
      assert segs + [typeName] == [typeName];
      SimpleNameLookup(pkgs, base, typeName);
    } else {
      var child := base + [segs[0]];
      var tail := segs[1..];
      assert child + tail == base + segs;
      assert forall k :: 0 <= k <= |tail| ==> child + tail[..k] == base + segs[..k + 1];
      assert forall seg :: seg in tail ==> seg in segs;
      RelativeLookupAlongPath(pkgs, child, tail, typeName);
      var rest := tail + [typeName];
      assert (segs + [typeName])[1..] == rest;
      assert JoinDots(segs + [typeName]) == segs[0] + "." + JoinDots(rest);
      assert segs[..1] == [segs[0]];
      ChildPackageTakesPrecedence(pkgs, base, segs[0], JoinDots(rest));
    }
  }

  /** A package name that does not start with a dot has a non-empty first segment. */
  lemma SplitDotsFirstNonEmpty(s: string)
    requires s != "" && s[0] != Dot
    ensures SplitDots(s)[0] != ""
  {
    match IndexOfDot(s)
    case None =>
    case Some(i) => assert i != 0;
  }

  /** Registration in a package written without a leading dot uses the package's segments as they are. */
  lemma PackagePathOfPlainName(pkgName: string)
    requires pkgName != "" && pkgName[0] != Dot
    ensures PackagePath(Some(pkgName)) == SplitDots(pkgName)
  {
    SplitDotsFirstNonEmpty(pkgName);
  }

  /** After registering `msg` in package P, looking P up from the root reaches the node that holds `msg`. */
  lemma RegisterThenFindPackage(pkgs: Packages, pkgName: string, msg: MessageDescriptor)
    requires WellFormed(pkgs)
    requires pkgName != "" && pkgName[0] != Dot
    ensures var r := Registered(pkgs, Some(pkgName), msg);
      PackageOf(r, pkgName) == Some(SplitDots(pkgName)) &&
      msg.name in r[SplitDots(pkgName)].types && r[SplitDots(pkgName)].types[msg.name] == msg
  {
    PackagePathOfPlainName(pkgName);
  }

  /** An absolute name `".P.<name>"` is absolute, and without its dot it is P's segments and the name, joined. */
  lemma AbsoluteName(pkgName: string, typeName: string)
    ensures HasPrefix("." + pkgName + "." + typeName, ".")
    ensures ("." + pkgName + "." + typeName)[1..] == JoinDots(SplitDots(pkgName) + [typeName])
  {
    var n := "." + pkgName + "." + typeName;
    assert n == [Dot] + (pkgName + [Dot] + typeName);
    assert n[1..] == pkgName + [Dot] + typeName;
    JoinSplitDots(pkgName);
    JoinDotsSnoc(SplitDots(pkgName), typeName);
  }

  /** Round trip: after registering `msg` in package P, ".P.<name>" resolves to `msg` from any scope. */
  lemma RegisterThenResolveAbsolute(pkgs: Packages, pkgName: string, msg: MessageDescriptor, scope: seq<string>)
    requires WellFormed(pkgs)
    requires pkgName != "" && pkgName[0] != Dot
    requires Dot !in msg.name
    ensures Resolve(Registered(pkgs, Some(pkgName), msg), scope, "." + pkgName + "." + msg.name) == Some(msg)
  {
    var r := Registered(pkgs, Some(pkgName), msg);
    RegisteredWellFormed(pkgs, Some(pkgName), msg);
    PackagePathOfPlainName(pkgName);
    var segs := SplitDots(pkgName);
    AbsoluteName(pkgName, msg.name);
    PrefixesPresent(r, segs);
    assert [] + segs == segs;
    assert forall k :: 0 <= k <= |segs| ==> [] + segs[..k] == segs[..k];
    assert forall seg :: seg in segs ==> Dot !in seg;
    RelativeLookupAlongPath(r, [], segs, msg.name);
  }

  /**
   * After registering `msg` in package P, its bare name resolves to `msg` from P and from every
   * descendant of P in which no nearer scope resolves that name.
   */
  lemma RegisterThenResolveFromDescendant(pkgs: Packages, pkgName: string, msg: MessageDescriptor, scope: seq<string>)
    requires [] in pkgs
    requires pkgName != "" && pkgName[0] != Dot
    requires Dot !in msg.name
    requires SplitDots(pkgName) <= scope
    requires forall j :: |SplitDots(pkgName)| < j <= |scope| ==>
      RelativeLookup(Registered(pkgs, Some(pkgName), msg), scope[..j], msg.name).None?
    ensures Resolve(Registered(pkgs, Some(pkgName), msg), scope, msg.name) == Some(msg)
  {
    var segs := SplitDots(pkgName);
    RegisteredNameFound(pkgs, pkgName, msg);
    assert scope[..|segs|] == segs;
    UnshadowedScopeWins(Registered(pkgs, Some(pkgName), msg), scope, msg.name, msg, |segs|);
    assert msg.name == [] || msg.name[0] != Dot;
  }

  /** After registering `msg` in package P, its bare name resolves to `msg` inside P. */
  lemma RegisteredNameFound(pkgs: Packages, pkgName: string, msg: MessageDescriptor)
    requires [] in pkgs
    requires pkgName != "" && pkgName[0] != Dot
    requires Dot !in msg.name
    ensures RelativeLookup(Registered(pkgs, Some(pkgName), msg), SplitDots(pkgName), msg.name) == Some(msg)
  {
    PackagePathOfPlainName(pkgName);
    SimpleNameLookup(Registered(pkgs, Some(pkgName), msg), SplitDots(pkgName), msg.name);
  }

  /** A scope that resolves the name, with no nearer scope resolving it, decides the outward search. */
  lemma UnshadowedScopeWins(pkgs: Packages, path: seq<string>, name: string, m: MessageDescriptor, k: nat)
    requires k <= |path| && RelativeLookup(pkgs, path[..k], name) == Some(m)
    requires forall j :: k < j <= |path| ==> RelativeLookup(pkgs, path[..j], name).None?
    ensures Outward(pkgs, path, name) == Some(m)
  {
    assert NearestAt(pkgs, path, name, m, k);
    OutwardFindsNearest(pkgs, path, name, m);
  }

  /** A package name that is empty or starts with a dot never names a node: the root has no "" child. */
  lemma LeadingEmptySegmentNotFound(pkgs: Packages, name: string)
    requires WellFormed(pkgs)
    requires name == "" || name[0] == Dot
    ensures PackageOf(pkgs, name) == None
  {
    if name == "" {
      assert SplitDots(name) == [""];
    } else {
      assert name == [Dot] + name[1..];
      SplitDotsLeadingDot(name[1..]);
    }
  }
}
