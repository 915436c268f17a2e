/** Slash-separated texts and the names in them. */
module Components {
  import opened CStrings

  function Split(s: string): (names: seq<string>)
    ensures names != []
  {
    var i := IndexOf(s, '/');
    if i == |s| then [s] else [s[..i]] + Split(s[i + 1..])
  }

  function Join(names: seq<string>): string {
    if names == [] then ""
    else if |names| == 1 then names[0]
    else names[0] + "/" + Join(names[1..])
  }

  ghost predicate SlashFree(names: seq<string>) {
    forall i :: 0 <= i < |names| ==> '/' !in names[i]
  }

  lemma SplitFirst(name: string, rest: string)
    requires '/' !in name
    ensures Split(name) == [name]
    ensures Split(name + "/" + rest) == [name] + Split(rest)
  {
    var s := name + "/" + rest;
    assert name[..|name|] == name && s[..|name|] == name && s[|name| + 1..] == rest;
    IndexOfUnique(name, '/', |name|);
    IndexOfUnique(s, '/', |name|);
  }

  lemma JoinCons(name: string, names: seq<string>)
    requires names != []
    ensures Join([name] + names) == name + "/" + Join(names)
  {
    assert ([name] + names)[1..] == names;
  }

  lemma {:induction false} SplitJoin(names: seq<string>)
    requires names != [] && SlashFree(names)
    ensures Split(Join(names)) == names
  {
    if |names| == 1 {
      SplitFirst(names[0], "");
    } else {
      SplitJoin(names[1..]);
      SplitFirst(names[0], Join(names[1..]));
      assert names == [names[0]] + names[1..];
    }
  }

  lemma {:induction false} JoinSplit(s: string)
    ensures Join(Split(s)) == s && SlashFree(Split(s))
    decreases |s|
  {
    var i := IndexOf(s, '/');
    if i == |s| {
      assert s[..i] == s;
    } else {
      JoinSplit(s[i + 1..]);
      JoinCons(s[..i], Split(s[i + 1..]));
      assert s == s[..i] + "/" + s[i + 1..];
    }
  }

  /** A slash between two texts separates their names. */
  lemma {:induction false} SplitAppend(a: string, b: string)
    ensures Split(a + "/" + b) == Split(a) + Split(b)
    decreases |a|
  {
    hide Split, IndexOf;
    var i := IndexOf(a, '/');
    if i == |a| {
      assert a[..i] == a;
      SplitFirst(a, b);
    } else {
      var name, rest := a[..i], a[i + 1..];
      assert a == name + "/" + rest;
      SplitAppend(rest, b);
      SplitFirst(name, rest);
      SplitFirst(name, rest + "/" + b);
      Regroup(name, rest, b);
      assert [name] + (Split(rest) + Split(b)) == [name] + Split(rest) + Split(b);
    }
  }

  lemma Regroup(x: string, y: string, z: string)
    ensures x + "/" + y + "/" + z == x + "/" + (y + "/" + z)
  {
  }

  lemma {:induction false} JoinAppend(a: seq<string>, b: seq<string>)
    requires a != [] && b != []
    ensures Join(a + b) == Join(a) + "/" + Join(b)
  {
    if |a| == 1 {
      assert a + b == [a[0]] + b;
      JoinCons(a[0], b);
    } else {
      assert a + b == [a[0]] + (a[1..] + b);
      JoinCons(a[0], a[1..] + b);
      assert a == [a[0]] + a[1..];
      JoinAppend(a[1..], b);
      assert a[0] + "/" + (Join(a[1..]) + "/" + Join(b)) == a[0] + "/" + Join(a[1..]) + "/" + Join(b);
    }
  }
}
