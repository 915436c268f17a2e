/** What a typed path means in a directory, and when the text the hooks build is that path's canonical text. */
module Resolution {
  import opened CStrings
  import opened Components
  import opened Paths

  /** A name that stands for itself. */
  predicate PlainName(name: string) {
    name != "" && name != "." && name != ".." && '/' !in name
  }

  predicate PlainNames(names: seq<string>) {
    forall name :: name in names ==> PlainName(name)
  }

  /** One step from a directory, given by the names that lead to it from the root. */
  function Enter(dir: seq<string>, name: string): seq<string> {
    if name == "" || name == "." then dir
    else if name == ".." then (if dir == [] then [] else dir[..|dir| - 1])
    else dir + [name]
  }

  function Follow(dir: seq<string>, names: seq<string>): seq<string>
    decreases names
  {
    if names == [] then dir else Follow(Enter(dir, names[0]), names[1..])
  }

  /** Where a path leads a process in `dir`; symbolic links are not followed. */
  function Meaning(dir: seq<string>, path: string): seq<string> {
    Follow(if "/" <= path then [] else dir, Split(path))
  }

  /** The one text of a place: no empty names, no dots. `d_path` and `pwd` print it. */
  function Canonical(dir: seq<string>): string { "/" + Join(dir) }

  /** One name at a time: a plain name descends, `..` climbs back and stops at the root, the others stay. */
  lemma MeaningOfNames(dir: seq<string>, name: string)
    requires PlainName(name)
    ensures Meaning(dir, name) == dir + [name] && Meaning(dir + [name], "..") == dir
    ensures Meaning([], "..") == [] && Meaning(dir, ".") == dir && Meaning(dir, "") == dir && Meaning(dir, "/") == []
  {
    MeaningOfOne(dir, name);
    MeaningOfOne(dir + [name], "..");
    MeaningOfOne([], "..");
    MeaningOfOne(dir, ".");
    MeaningOfOne(dir, "");
    MeaningOfSlash(dir);
    hide Meaning;
    assert (dir + [name])[..|dir|] == dir;
  }

  lemma MeaningOfOne(dir: seq<string>, name: string)
    requires '/' !in name
    ensures Meaning(dir, name) == Enter(dir, name)
  {
    hide Split, Follow, Enter;
    SplitFirst(name, "");
    FollowOne(dir, name);
    assert name != "" ==> name[0] in name;
  }

  lemma MeaningOfSlash(dir: seq<string>)
    ensures Meaning(dir, "/") == []
  {
    hide Split;
    SplitFirst("", "");
    assert "" + "/" + "" == "/" && [""] + [""] == ["", ""] && ["", ""][1..] == [""] && [""][1..] == [];
  }

  lemma FollowOne(dir: seq<string>, name: string)
    ensures Follow(dir, [name]) == Enter(dir, name)
  {
    assert [name][1..] == [];
  }

  lemma {:induction false} FollowAppend(dir: seq<string>, a: seq<string>, b: seq<string>)
    ensures Follow(dir, a + b) == Follow(Follow(dir, a), b)
    decreases a
  {
    if a == [] {
      assert a + b == b;
    } else {
      assert (a + b)[1..] == a[1..] + b;
      FollowAppend(Enter(dir, a[0]), a[1..], b);
    }
  }

  /** A path goes on from where its front part leads. */
  lemma MeaningAppend(dir: seq<string>, a: string, b: string)
    requires a != "" && !("/" <= b)
    ensures Meaning(dir, a + "/" + b) == Meaning(Meaning(dir, a), b)
  {
    SplitAppend(a, b);
    FollowAppend(if "/" <= a then [] else dir, Split(a), Split(b));
    assert (a + "/" + b)[0] == a[0];
    hide Split, Follow;
  }

  lemma PlainIsSlashFree(names: seq<string>)
    requires PlainNames(names)
    ensures SlashFree(names)
  {
    assert forall i :: 0 <= i < |names| ==> names[i] in names;
  }

  lemma {:induction false} FollowStaysPlain(dir: seq<string>, names: seq<string>)
    requires PlainNames(dir) && SlashFree(names)
    ensures PlainNames(Follow(dir, names))
    decreases names
  {
    if names != [] {
      FollowStaysPlain(Enter(dir, names[0]), names[1..]);
    }
  }

  lemma MeaningIsPlain(dir: seq<string>, path: string)
    requires PlainNames(dir)
    ensures PlainNames(Meaning(dir, path))
  {
    JoinSplit(path);
    FollowStaysPlain(if "/" <= path then [] else dir, Split(path));
  }

  lemma {:induction false} FollowPlain(dir: seq<string>, names: seq<string>)
    requires PlainNames(names)
    ensures Follow(dir, names) == dir + names
    decreases names
  {
    if names == [] {
      assert dir + names == dir;
    } else {
      assert names == [names[0]] + names[1..];
      assert PlainName(names[0]);
      FollowPlain(dir + [names[0]], names[1..]);
      assert dir + [names[0]] + names[1..] == dir + names;
    }
  }

  lemma SplitCanonical(dir: seq<string>)
    requires PlainNames(dir)
    ensures Split(Canonical(dir)) == [""] + if dir == [] then [""] else dir
  {
    SplitFirst("", Join(dir));
    assert "" + "/" + Join(dir) == Canonical(dir);
    if dir == [] {
      SplitFirst("", "");
    } else {
      PlainIsSlashFree(dir);
      SplitJoin(dir);
    }
  }

  /** Different places have different texts. */
  lemma CanonicalInjective(dir1: seq<string>, dir2: seq<string>)
    requires PlainNames(dir1) && PlainNames(dir2) && Canonical(dir1) == Canonical(dir2)
    ensures dir1 == dir2
  {
    SplitCanonical(dir1);
    SplitCanonical(dir2);
    var tail := Split(Canonical(dir1))[1..];
    assert tail == if dir1 == [] then [""] else dir1;
    assert tail == if dir2 == [] then [""] else dir2;
    assert "" in [""];
  }

  /** When a built path is some place's canonical text at all, every typed name is plain, the directory
      is not the root, and the place is the one meant. */
  lemma CanonicalFullPath(dir: seq<string>, path: string, place: seq<string>)
    requires PlainNames(dir) && PlainNames(place)
    requires FullPath(Canonical(dir), path) == Canonical(place)
    ensures dir != [] && PlainNames(Split(path)) && place == dir + Split(path) == Meaning(dir, path)
  {
    var typed := Split(path);
    SplitAppend(Canonical(dir), path);
    SplitCanonical(dir);
    SplitCanonical(place);
    RelativeParts(dir, typed, place);
    assert forall name :: name in typed ==> name in place;
    RelativeMeaning(dir, path);
  }

  lemma RelativeParts(dir: seq<string>, typed: seq<string>, place: seq<string>)
    requires PlainNames(dir) && PlainNames(place) && typed != []
    requires [""] + (if dir == [] then [""] else dir) + typed == [""] + if place == [] then [""] else place
    ensures dir != [] && place == dir + typed
  {
    var left := [""] + (if dir == [] then [""] else dir) + typed;
    var right := [""] + if place == [] then [""] else place;
    assert |left| >= 3 && place != [];
    assert place[0] in place && right[1] == place[0];
    assert left[1] == if dir == [] then "" else dir[0];
    assert left[1..] == dir + typed && right[1..] == place;
  }

  lemma RelativeMeaning(dir: seq<string>, path: string)
    requires PlainNames(Split(path))
    ensures Meaning(dir, path) == dir + Split(path)
  {
    if "/" <= path {
      IndexOfUnique(path, '/', 0);
      assert Split(path)[0] == "" && Split(path)[0] in Split(path);
    }
    FollowPlain(dir, Split(path));
  }

  /** The hooks' full path is the canonical text of the place meant exactly when the process is not in
      the root directory and types plain names: no leading, doubled or trailing slash, no dots. */
  lemma FullPathCanonicalIff(dir: seq<string>, path: string)
    requires PlainNames(dir)
    ensures FullPath(Canonical(dir), path) == Canonical(Meaning(dir, path)) <==>
            dir != [] && PlainNames(Split(path))
  {
    MeaningIsPlain(dir, path);
    if dir != [] && PlainNames(Split(path)) {
      RelativeMeaning(dir, path);
      JoinAppend(dir, Split(path));
      JoinSplit(path);
    }
    if FullPath(Canonical(dir), path) == Canonical(Meaning(dir, path)) {
      CanonicalFullPath(dir, path, Meaning(dir, path));
    }
  }

  /** A place's canonical text leads to it from everywhere. */
  lemma MeaningOfCanonical(dir: seq<string>, place: seq<string>)
    requires PlainNames(place)
    ensures Meaning(dir, Canonical(place)) == place
  {
    SplitCanonical(place);
    var names := if place == [] then [""] else place;
    assert Split(Canonical(place))[1..] == names;
    assert Follow([], [""] + names) == Follow([], names);
    if place == [] {
      assert [""][1..] == [];
    } else {
      FollowPlain([], place);
    }
  }

  // ----------------------------------------------------------------- parents

  function Untrailed(path: string): string {
    if path != "" && path[|path| - 1] == '/' then path[..|path| - 1] else path
  }

  lemma CutLastName(s: string)
    requires '/' in s
    ensures var names := Split(s);
      |names| > 1 && s[..SlashFromEnd(s, 1)] == Join(names[..|names| - 1])
  {
    var i := SlashFromEnd(s, 1);
    var front, last := s[..i], s[i + 1..];
    assert s == front + "/" + last;
    AfterLastSlash(s);
    SplitAppend(front, last);
    SplitFirst(last, "");
    JoinSplit(front);
    assert Split(s)[..|Split(s)| - 1] == Split(front);
  }

  /** The parent of a built path, by the names typed. */
  lemma ParentByNames(cwd: string, path: string)
    requires path != ""
    ensures var names := Split(Untrailed(path));
      ParentOf(FullPath(cwd, path)) ==
        if |names| == 1 then cwd else FullPath(cwd, Join(names[..|names| - 1]))
  {
    var rest := Untrailed(path);
    ParentCut(cwd, path);
    if '/' in rest {
      CutLastName(rest);
    } else {
      SplitFirst(rest, "");
    }
  }
}
