/** The walk from a dentry up to its file system's root, which spells out a path. */
module Dentries {
  import opened CStrings
  import opened Components
  import opened Paths

  datatype Dentry = Dentry(name: string, parent: nat)

  /** Dentries by address; the root is its own parent. */
  datatype Dcache = Dcache(dentries: map<nat, Dentry>, root: nat)
  {
    function Name(d: nat): string
      requires d in dentries
    {
      dentries[d].name
    }

    function Parent(d: nat): nat
      requires d in dentries
    {
      dentries[d].parent
    }
  }

  /** Every parent chain ends at the root, which `depth` witnesses. */
  ghost predicate Rooted(c: Dcache, depth: map<nat, nat>) {
    c.root in c.dentries && c.Parent(c.root) == c.root &&
    (forall d :: d in c.dentries ==> d in depth && c.Parent(d) in c.dentries) &&
    (forall d :: d in c.dentries && d != c.root ==> depth[c.Parent(d)] < depth[d])
  }

  /** Names are slash-free, siblings differ, and only the root bears the root's name. */
  ghost predicate Named(c: Dcache, depth: map<nat, nat>)
    requires Rooted(c, depth)
  {
    (forall d :: d in c.dentries && d != c.root ==> '/' !in c.Name(d) && c.Name(d) != c.Name(c.root)) &&
    (forall d, e | d in c.dentries && e in c.dentries && d != c.root && e != c.root ::
      c.Parent(d) == c.Parent(e) && c.Name(d) == c.Name(e) ==> d == e)
  }

  /** The names below the root, outermost first. */
  ghost function Names(c: Dcache, depth: map<nat, nat>, d: nat): seq<string>
    requires Rooted(c, depth) && d in c.dentries
    decreases depth[d]
  {
    if d == c.root then [] else Names(c, depth, c.Parent(d)) + [c.Name(d)]
  }

  function Prefix(rootName: string): string {
    if |rootName| == 1 then "/" else rootName + "/"
  }

  /** The names that the walk prints: it starts one step up, so the root prints its own once more. */
  ghost function Shown(c: Dcache, depth: map<nat, nat>, d: nat): seq<string>
    requires Rooted(c, depth) && d in c.dentries
  {
    if d == c.root then [c.Name(d)] else Names(c, depth, d)
  }

  ghost function PathOf(c: Dcache, depth: map<nat, nat>, d: nat): string
    requires Rooted(c, depth) && d in c.dentries
  {
    Prefix(c.Name(c.root)) + Join(Shown(c, depth, d))
  }

  /** The printed texts, by the root's name. The root itself is printed with its name twice. */
  lemma PathTexts(c: Dcache, depth: map<nat, nat>, d: nat)
    requires Rooted(c, depth) && d in c.dentries
    ensures var root := c.Name(c.root); var names := Join(Names(c, depth, d));
      (root == "/" && d != c.root ==> PathOf(c, depth, d) == "/" + names) &&
      (|root| != 1 && d != c.root ==> PathOf(c, depth, d) == root + "/" + names) &&
      (root == "/" && d == c.root ==> PathOf(c, depth, d) == "//")
  {
  }

  // ------------------------------------------------------------------ the walk

  /** The walk from `d` has printed `names` and stands at `at`. */
  ghost predicate WalkUp(c: Dcache, depth: map<nat, nat>, d: nat, at: nat, names: seq<string>)
    requires Rooted(c, depth) && d in c.dentries
  {
    at in c.dentries && names != [] && Names(c, depth, at) + names == Shown(c, depth, d)
  }

  lemma WalkUpStarts(c: Dcache, depth: map<nat, nat>, d: nat)
    requires Rooted(c, depth) && d in c.dentries
    ensures WalkUp(c, depth, d, c.Parent(d), [c.Name(d)])
    ensures Join([c.Name(d)]) == c.Name(d)
  {
    if d == c.root {
      assert Names(c, depth, c.root) == [];
    }
  }

  lemma WalkUpStep(c: Dcache, depth: map<nat, nat>, d: nat, at: nat, names: seq<string>)
    requires Rooted(c, depth) && d in c.dentries && WalkUp(c, depth, d, at, names) && at != c.root
    ensures WalkUp(c, depth, d, c.Parent(at), [c.Name(at)] + names)
    ensures Join([c.Name(at)] + names) == c.Name(at) + "/" + Join(names)
  {
    JoinCons(c.Name(at), names);
    var up := Names(c, depth, c.Parent(at));
    assert up + [c.Name(at)] + names == up + ([c.Name(at)] + names);
  }

  /** What has been printed is never longer than the whole path. */
  lemma WalkUpShort(c: Dcache, depth: map<nat, nat>, d: nat, at: nat, names: seq<string>)
    requires Rooted(c, depth) && d in c.dentries && WalkUp(c, depth, d, at, names)
    ensures |Join(names)| < |PathOf(c, depth, d)|
    ensures at == c.root ==> PathOf(c, depth, d) == Prefix(c.Name(c.root)) + Join(names)
  {
    var up := Names(c, depth, at);
    if up == [] {
      assert up + names == names;
    } else {
      JoinAppend(up, names);
    }
  }

  /** `Failed`: the null file of a closed descriptor is used, or a path outgrows its buffer. */
  datatype PathResult = Written(path: string) | Failed

  /** `getPathFromFd`, for the dentry behind a descriptor. */
  method GetPathFromFd(c: Dcache, file: Option<nat>, ghost depth: map<nat, nat>) returns (r: PathResult)
    requires Rooted(c, depth) && Named(c, depth)
    requires file.Some? ==> file.value in c.dentries
    ensures r == if file == None || |PathOf(c, depth, file.value)| >= PATH_MAX then Failed
                 else Written(PathOf(c, depth, file.value))
  {
    hide Names, Join, PathOf, Shown, WalkUp;
    if file == None {
      // fput(NULL)
      return Failed;
    }
    ghost var d := file.value;
    var dentry := file.value;
    var rootPath := c.Name(c.root);
    var path := c.Name(dentry);
    ghost var names := [path];
    WalkUpStarts(c, depth, d);
    dentry := c.Parent(dentry);
    while c.Name(dentry) != rootPath
      invariant dentry in c.dentries && WalkUp(c, depth, d, dentry, names) && path == Join(names)
      decreases depth[dentry]
    {
      WalkUpStep(c, depth, d, dentry, names);
      var temp := c.Name(dentry) + "/" + path;
      names := [c.Name(dentry)] + names;
      path := temp;
      dentry := c.Parent(dentry);
      WalkUpShort(c, depth, d, dentry, names);
      if |path| >= PATH_MAX {
        return Failed;
      }
    }
    WalkUpShort(c, depth, d, dentry, names);
    var temp := Prefix(rootPath) + path;
    path := temp;
    return if |path| >= PATH_MAX then Failed else Written(path);
  }

  // ------------------------------------------------------------- resolution

  predicate IsChild(c: Dcache, parent: nat, name: string, d: nat) {
    d in c.dentries && d != c.root && c.Parent(d) == parent && c.Name(d) == name
  }

  /** The child of that name, if there is one. */
  ghost function Child(c: Dcache, parent: nat, name: string): (r: Option<nat>)
    ensures r.Some? ==> IsChild(c, parent, name, r.value)
    ensures r == None ==> forall d :: !IsChild(c, parent, name, d)
  {
    if e :| IsChild(c, parent, name, e) then Some(e) else None
  }

  lemma ChildIs(c: Dcache, depth: map<nat, nat>, d: nat)
    requires Rooted(c, depth) && Named(c, depth) && d in c.dentries && d != c.root
    ensures Child(c, c.Parent(d), c.Name(d)) == Some(d)
  {
    assert IsChild(c, c.Parent(d), c.Name(d), d);
  }

  /** Descend from `d` along `names`. */
  ghost function Descend(c: Dcache, d: nat, names: seq<string>): Option<nat>
    decreases names
  {
    if names == [] then Some(d)
    else match Child(c, d, names[0])
      case Some(e) => Descend(c, e, names[1..])
      case None => None
  }

  /** Resolve an absolute path: drop the root's prefix, split at slashes, descend from the root. */
  ghost function Resolve(c: Dcache, path: string): Option<nat>
    requires c.root in c.dentries
  {
    var prefix := Prefix(c.Name(c.root));
    if prefix <= path then Descend(c, c.root, Split(path[|prefix|..])) else None
  }

  lemma {:induction false} DescendSnoc(c: Dcache, from: nat, names: seq<string>, name: string)
    ensures Descend(c, from, names + [name]) ==
      match Descend(c, from, names) case None => None case Some(d) => Child(c, d, name)
    decreases names
  {
    if names == [] {
      assert names + [name] == [name] && [name][1..] == [];
    } else {
      assert (names + [name])[0] == names[0] && (names + [name])[1..] == names[1..] + [name];
      match Child(c, from, names[0])
      case None =>
      case Some(e) => DescendSnoc(c, e, names[1..], name);
    }
  }

  lemma {:induction false} DescendNames(c: Dcache, depth: map<nat, nat>, d: nat)
    requires Rooted(c, depth) && Named(c, depth) && d in c.dentries
    ensures Descend(c, c.root, Names(c, depth, d)) == Some(d) && SlashFree(Names(c, depth, d))
    decreases depth[d]
  {
    if d != c.root {
      DescendNames(c, depth, c.Parent(d));
      DescendSnoc(c, c.root, Names(c, depth, c.Parent(d)), c.Name(d));
      ChildIs(c, depth, d);
    }
  }

  /** Resolving the path printed for a dentry leads back to that dentry. */
  lemma ResolvePathOf(c: Dcache, depth: map<nat, nat>, d: nat)
    requires Rooted(c, depth) && Named(c, depth)
    requires d in c.dentries && d != c.root
    ensures Resolve(c, PathOf(c, depth, d)) == Some(d)
  {
    var prefix := Prefix(c.Name(c.root));
    var path := PathOf(c, depth, d);
    assert path[|prefix|..] == Join(Names(c, depth, d));
    DescendNames(c, depth, d);
    SplitJoin(Names(c, depth, d));
  }

  /** So different dentries have different paths. */
  lemma PathOfInjective(c: Dcache, depth: map<nat, nat>, d: nat, e: nat)
    requires Rooted(c, depth) && Named(c, depth)
    requires d in c.dentries && e in c.dentries && d != c.root && e != c.root
    requires PathOf(c, depth, d) == PathOf(c, depth, e)
    ensures d == e
  {
    ResolvePathOf(c, depth, d);
    ResolvePathOf(c, depth, e);
  }
}
