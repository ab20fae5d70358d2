/** The recursive directory list command: a walk that changes the current directory on
    the way down and back up, against a pure preorder of the tree. */
module DirWalk {
  import opened Wrappers
  import opened Names

  /** A file system object as stat sees it; Broken is an entry that stat fails on. */
  datatype Node =
    | File
    | Broken
    | Dir(readable: bool, kids: map<Name, Node>)

  /** Output: a directory's header with its path, or one entry's information. */
  datatype Line = Header(path: string) | Info(name: Name)

  /** What readdir delivers, in whatever order. */
  function Entries(node: Node): set<Name>
    requires node.Dir?
  {
    node.kids.Keys + {".", ".."}
  }

  /** Names as a file system holds them. */
  predicate WellNamed(node: Node)
  {
    node.Dir? ==> forall n :: n in node.kids ==>
      n != [] && n != "." && n != ".." && '/' !in n && WellNamed(node.kids[n])
  }

  /** stat succeeds; "." and ".." always exist. */
  predicate Exists(node: Node, name: Name)
    requires node.Dir?
  {
    name == "." || name == ".." || (name in node.kids && !node.kids[name].Broken?)
  }

  /** A subdirectory the walk descends into. */
  predicate IsSubdir(node: Node, name: Name)
    requires node.Dir?
  {
    name != "." && name != ".." && name in node.kids && node.kids[name].Dir?
  }

  // ----- the reference: a preorder of the tree -----

  /** The information lines of these entries, in this order. */
  function Infos(node: Node, names: seq<Name>): seq<Line>
    requires node.Dir?
  {
    if names == [] then []
    else
      var last := names[|names| - 1];
      Infos(node, names[..|names| - 1]) + if Exists(node, last) then [Info(last)] else []
  }

  /** Header, sorted entries, then every subdirectory in sorted order. An unreadable
      directory yields its header only. */
  ghost function Preorder(node: Node, path: string, recursively: bool): seq<Line>
    requires node.Dir?
    decreases node, 1
  {
    [Header(path)]
    + if node.readable then Listing(node, path, SortedNames(Entries(node)), recursively) else []
  }

  ghost function Listing(node: Node, path: string, names: seq<Name>, recursively: bool): seq<Line>
    requires node.Dir?
    decreases node, 0, |names| + 2
  {
    Infos(node, names) + if recursively then Subtrees(node, path, names) else []
  }

  ghost function Subtrees(node: Node, path: string, names: seq<Name>): seq<Line>
    requires node.Dir?
    decreases node, 0, |names| + 1
  {
    if names == [] then []
    else Subtrees(node, path, names[..|names| - 1]) + Subtree(node, path, names[|names| - 1])
  }

  ghost function Subtree(node: Node, path: string, name: Name): seq<Line>
    requires node.Dir?
    decreases node, 0, 0
  {
    if IsSubdir(node, name) then Preorder(node.kids[name], path + "/" + name, true) else []
  }

  lemma SubtreesStep(node: Node, path: string, names: seq<Name>, j: nat)
    requires node.Dir? && j < |names|
    ensures Subtrees(node, path, names[..j + 1]) == Subtrees(node, path, names[..j]) + Subtree(node, path, names[j])
  {
    assert names[..j + 1][..j] == names[..j];
  }

  // ----- the walk -----

  /** The object a list of names leads to. */
  function Lookup(root: Node, names: seq<Name>): Option<Node>
    decreases |names|
  {
    if names == [] then Some(root)
    else
      var parent := Lookup(root, names[..|names| - 1]);
      var last := names[|names| - 1];
      if parent.Some? && parent.value.Dir? && last in parent.value.kids
      then Some(parent.value.kids[last]) else None
  }

  class Walker {
    const root: Node
    var cwd: seq<Name>           // the current directory, from the root
    var output: seq<Line>

    constructor (root: Node, cwd: seq<Name>)
      requires Lookup(root, cwd).Some? && Lookup(root, cwd).value.Dir?
      ensures this.root == root && this.cwd == cwd && output == []
    {
      this.root, this.cwd, output := root, cwd, [];
    }

    predicate InDir()
      reads this
    {
      Lookup(root, cwd).Some? && Lookup(root, cwd).value.Dir?
    }

    function Here(): Node
      requires InDir()
      reads this
    {
      Lookup(root, cwd).value
    }

    /** chdir to a subdirectory, which succeeds. */
    method ChdirDown(name: Name)
      requires InDir() && IsSubdir(Here(), name)
      modifies this`cwd
      ensures cwd == old(cwd) + [name] && InDir() && Here() == old(Here()).kids[name]
    {
      cwd := cwd + [name];
      assert cwd[..|cwd| - 1] == old(cwd);
    }

    /** chdir to "..", from below the root. */
    method ChdirUp()
      requires cwd != []
      modifies this`cwd
      ensures cwd == old(cwd)[..|old(cwd)| - 1]
    {
      cwd := cwd[..|cwd| - 1];
    }

    /** First pass over the open directory: how many entries. */
    method CountEntries() returns (count: nat)
      requires InDir()
      ensures count == |Entries(Here())|
    {
      var unread := Entries(Here());
      count := 0;
      while unread != {}
        invariant count + |unread| == |Entries(Here())|
        decreases |unread|
      {
        var entry :| entry in unread;
        unread := unread - {entry};
        count := count + 1;
      }
    }

    /** Second pass: the names, in whatever order they come. No slot beyond the counted
        ones is needed and none stays empty. */
    method ReadEntries(count: nat) returns (files: array<Name>)
      requires InDir() && count == |Entries(Here())|
      ensures fresh(files) && files.Length == count
      ensures forall n :: n in files[..] <==> n in Entries(Here())
      ensures forall i, j :: 0 <= i < j < files.Length ==> files[i] != files[j]
    {
      files := new Name[count](_ => "");
      var unread := Entries(Here());
      var i := 0;
      while unread != {}
        invariant i + |unread| == count && unread <= Entries(Here())
        invariant forall n :: n in Entries(Here()) <==> n in unread || n in files[..i]
        invariant forall k :: 0 <= k < i ==> files[k] !in unread
        invariant forall a, b :: 0 <= a < b < i ==> files[a] != files[b]
        decreases |unread|
      {
        var entry :| entry in unread;
        unread := unread - {entry};
        files[i] := entry;
        assert files[..i + 1] == files[..i] + [entry];
        i := i + 1;
      }
      assert files[..i] == files[..];
    }

    method SortedEntries() returns (files: array<Name>)
      requires InDir()
      ensures fresh(files) && files[..] == SortedNames(Entries(Here()))
    {
      var count := CountEntries();
      files := ReadEntries(count);
      SortFiles(files, Entries(Here()));
    }

    method PrintEntries(files: array<Name>)
      requires InDir()
      modifies this`output
      ensures output == old(output) + Infos(Here(), files[..])
    {
      for j := 0 to files.Length
        invariant output == old(output) + Infos(Here(), files[..j])
      {
        assert files[..j + 1][..j] == files[..j];
        if Exists(Here(), files[j]) {
          output := output + [Info(files[j])];
        }
      }
      assert files[..files.Length] == files[..];
    }

    /** The whole walk: what it prints is the preorder of node, the current directory with
        the tree below it, and it ends in the directory it started from. */
    method ScanDir(recursively: bool, path: string, ghost node: Node)
      requires InDir() && node == Here()
      modifies this`cwd, this`output
      ensures cwd == old(cwd)
      ensures output == old(output) + Preorder(node, path, recursively)
      decreases node, 2
    {
      output := output + [Header(path)];
      if !Here().readable {
        return;
      }
      var files := SortedEntries();
      ListEntries(files, recursively, path, node);
    }

    method ListEntries(files: array<Name>, recursively: bool, path: string, ghost node: Node)
      requires InDir() && node == Here()
      modifies this`cwd, this`output
      ensures cwd == old(cwd)
      ensures output == old(output) + Listing(node, path, files[..], recursively)
      decreases node, 1
    {
      PrintEntries(files);
      if recursively {
        ScanSubdirs(files, path, node);
      }
    }

    /** The descending loop of the walk. */
    method ScanSubdirs(files: array<Name>, path: string, ghost node: Node)
      requires InDir() && node == Here()
      modifies this`cwd, this`output
      ensures cwd == old(cwd)
      ensures output == old(output) + Subtrees(node, path, files[..])
      decreases node, 0, 1
    {
      ghost var start, names := output, files[..];
      for j := 0 to files.Length
        invariant cwd == old(cwd) && files[..] == names
        invariant output == start + Subtrees(node, path, names[..j])
      {
        SubtreesStep(node, path, names, j);
        ScanEntry(files[j], path, node);
      }
      assert names[..files.Length] == names;
    }

    /** One turn of it: down, through the subdirectory and back up, if it is one. */
    method ScanEntry(file: Name, path: string, ghost node: Node)
      requires InDir() && node == Here()
      modifies this`cwd, this`output
      ensures cwd == old(cwd)
      ensures output == old(output) + Subtree(node, path, file)
      decreases node, 0, 0
    {
      if file == "." || file == ".." || !IsSubdir(Here(), file) {
        return;
      }
      ChdirDown(file);
      ScanDir(true, path + "/" + file, node.kids[file]);
      ChdirUp();
    }

    /** qsort leaves the one sorted list of the directory's names. */
    static method SortFiles(files: array<Name>, ghost names: set<Name>)
      requires forall n :: n in files[..] <==> n in names
      requires forall i, j :: 0 <= i < j < files.Length ==> files[i] != files[j]
      modifies files
      ensures files[..] == SortedNames(names)
    {
      ghost var before := files[..];
      Qsort(files);
      DistinctPermutation(before, files[..]);
      SortedListUnique(files[..], SortedNames(names), names);
    }
  }

  /** A permutation of distinct names is distinct and holds the same names. */
  lemma DistinctPermutation(xs: seq<Name>, ys: seq<Name>)
    requires multiset(xs) == multiset(ys)
    requires forall i, j :: 0 <= i < j < |xs| ==> xs[i] != xs[j]
    ensures forall i, j :: 0 <= i < j < |ys| ==> ys[i] != ys[j]
    ensures forall n :: n in xs <==> n in ys
  {
    forall n ensures n in xs <==> n in ys {
      assert n in xs <==> n in multiset(xs);
      assert n in ys <==> n in multiset(ys);
    }
    forall i, j | 0 <= i < j < |ys| ensures ys[i] != ys[j] {
      AtMostOnce(xs, ys[i]);
      assert ys == ys[..j] + [ys[j]] + ys[j + 1..];
      assert ys[i] in multiset(ys[..j]);
      assert ys[i] == ys[j] ==> multiset(ys)[ys[i]] >= 2;
    }
  }

  lemma {:induction false} AtMostOnce(xs: seq<Name>, n: Name)
    requires forall i, j :: 0 <= i < j < |xs| ==> xs[i] != xs[j]
    ensures multiset(xs)[n] <= 1
  {
    if xs != [] {
      AtMostOnce(xs[1..], n);
      assert xs == [xs[0]] + xs[1..];
      if n == xs[0] && n in xs[1..] {
        assert false;
      }
      assert n in xs[1..] <==> n in multiset(xs[1..]);
    }
  }

  // ----- what the preorder lists -----

  /** p is the path of a directory in the tree of node, which itself has the given path;
      nothing is found below an unreadable directory. */
  ghost predicate IsDirPath(node: Node, path: string, p: string)
    requires node.Dir?
    decreases node
  {
    p == path
    || (node.readable && exists n :: n in node.kids && node.kids[n].Dir? && IsDirPath(node.kids[n], path + "/" + n, p))
  }

  /** Directory paths extend the path of the directory they are in. */
  lemma {:induction false} DirPathExtends(node: Node, path: string, p: string)
    requires node.Dir? && IsDirPath(node, path, p)
    ensures p == path || path + "/" <= p
    decreases node
  {
    if p != path {
      var n :| n in node.kids && node.kids[n].Dir? && IsDirPath(node.kids[n], path + "/" + n, p);
      DirPathExtends(node.kids[n], path + "/" + n, p);
      assert path + "/" + n <= p;
      assert p == (path + "/") + n + p[|path + "/" + n|..];
    }
  }

  /** The first name on the way to a directory is determined by its path. */
  lemma SameFirstName(node: Node, path: string, m: Name, n: Name, p: string)
    requires node.Dir? && WellNamed(node) && IsSubdir(node, m) && IsSubdir(node, n)
    requires IsDirPath(node.kids[m], path + "/" + m, p) && IsDirPath(node.kids[n], path + "/" + n, p)
    ensures m == n
  {
    DirPathExtends(node.kids[m], path + "/" + m, p);
    DirPathExtends(node.kids[n], path + "/" + n, p);
    NameAhead(path, m, p);
    NameAhead(path, n, p);
    NoLonger(m, n, p[|path| + 1..]);
    NoLonger(n, m, p[|path| + 1..]);
  }

  /** Where one name ends at a slash, another one without slash cannot go on. */
  lemma NoLonger(m: Name, n: Name, rest: string)
    requires m <= rest && n <= rest && '/' !in n
    requires |m| < |rest| ==> rest[|m|] == '/'
    ensures |n| <= |m|
  {
    assert forall i :: 0 <= i < |n| ==> rest[i] == n[i] && n[i] in n;
  }

  lemma NameAhead(path: string, n: Name, p: string)
    requires p == path + "/" + n || (path + "/" + n) + "/" <= p
    ensures |path| + 1 + |n| <= |p| && n <= p[|path| + 1..]
    ensures |p| == |path| + 1 + |n| || p[|path| + 1 + |n|] == '/'
  {
    var whole := path + "/" + n;
    assert p[..|whole|] == whole;
    assert p[|path| + 1..][..|n|] == whole[|path| + 1..];
    if p != whole { assert p[|whole|] == ((path + "/" + n) + "/")[|whole|]; }
  }

  lemma {:induction false} InfosHoldNoHeader(node: Node, names: seq<Name>, p: string)
    requires node.Dir?
    ensures Header(p) !in Infos(node, names)
  {
    if names != [] { InfosHoldNoHeader(node, names[..|names| - 1], p); }
  }

  function OneIf(b: bool): nat { if b then 1 else 0 }

  /** Exactly once: a recursive walk prints the header of p once if p is the path of a
      directory it can reach, and otherwise never. */
  lemma {:induction false} EachDirectoryOnce(node: Node, path: string, p: string)
    requires node.Dir? && WellNamed(node)
    ensures multiset(Preorder(node, path, true))[Header(p)] == OneIf(IsDirPath(node, path, p))
    decreases node, 1
  {
    if node.readable {
      var names := SortedNames(Entries(node));
      EachSubtreeOnce(node, path, names, p);
      InfosHoldNoHeader(node, names, p);
      assert Header(p) !in multiset(Infos(node, names));
      SubtreesStayBelow(node, path, names);
      SubtreesCoverTree(node, path, names, p);
    }
  }

  ghost predicate InSomeSubtree(node: Node, path: string, names: seq<Name>, p: string)
    requires node.Dir?
  {
    exists n :: n in names && InSubtree(node, path, n, p)
  }

  lemma SubtreesCoverTree(node: Node, path: string, names: seq<Name>, p: string)
    requires node.Dir? && node.readable && WellNamed(node) && forall n :: n in names <==> n in Entries(node)
    ensures IsDirPath(node, path, p) <==> p == path || InSomeSubtree(node, path, names, p)
  {
    if IsDirPath(node, path, p) && p != path {
      var n :| n in node.kids && node.kids[n].Dir? && IsDirPath(node.kids[n], path + "/" + n, p);
      assert n in names && InSubtree(node, path, n, p);
    }
  }

  lemma SubtreesStayBelow(node: Node, path: string, names: seq<Name>)
    requires node.Dir?
    ensures !InSomeSubtree(node, path, names, path)
  {
    forall n ensures !InSubtree(node, path, n, path) {
      if InSubtree(node, path, n, path) {
        DirPathExtends(node.kids[n], path + "/" + n, path);
      }
    }
  }

  ghost predicate InSubtree(node: Node, path: string, n: Name, p: string)
    requires node.Dir?
  {
    IsSubdir(node, n) && IsDirPath(node.kids[n], path + "/" + n, p)
  }

  lemma InSomeSubtreeStep(node: Node, path: string, names: seq<Name>, n: Name, p: string)
    requires node.Dir? && WellNamed(node) && n !in names
    ensures InSomeSubtree(node, path, names + [n], p) <==> InSomeSubtree(node, path, names, p) || InSubtree(node, path, n, p)
    ensures !(InSomeSubtree(node, path, names, p) && InSubtree(node, path, n, p))
  {
    if InSomeSubtree(node, path, names, p) {
      var m :| m in names && InSubtree(node, path, m, p);
      if InSubtree(node, path, n, p) { SameFirstName(node, path, m, n, p); }
      assert m in names + [n];
    }
    if InSubtree(node, path, n, p) { assert n in names + [n]; }
  }

  lemma {:induction false} EachSubtreeOnce(node: Node, path: string, names: seq<Name>, p: string)
    requires node.Dir? && WellNamed(node)
    requires forall i, j :: 0 <= i < j < |names| ==> names[i] != names[j]
    ensures multiset(Subtrees(node, path, names))[Header(p)] == OneIf(InSomeSubtree(node, path, names, p))
    decreases node, 0, |names|
  {
    if names != [] {
      var before, last := names[..|names| - 1], names[|names| - 1];
      assert names == before + [last] && last !in before;
      EachSubtreeOnce(node, path, before, p);
      InSomeSubtreeStep(node, path, before, last, p);
      if IsSubdir(node, last) { EachDirectoryOnce(node.kids[last], path + "/" + last, p); }
      assert multiset(Subtree(node, path, last))[Header(p)] == OneIf(InSubtree(node, path, last, p));
    }
  }

  /** A directory's own entries are listed in strictly ascending order, each that stat
      finds and no other. */
  lemma EntriesAreSorted(node: Node, lines: seq<Line>)
    requires node.Dir? && lines == Infos(node, SortedNames(Entries(node)))
    ensures forall i :: 0 <= i < |lines| ==> lines[i].Info?
    ensures forall i, j :: 0 <= i < j < |lines| ==> Below(lines[i].name, lines[j].name)
    ensures forall n :: Info(n) in lines <==> n == "." || n == ".." || (n in node.kids && !node.kids[n].Broken?)
  {
    InfosKeepOrder(node, SortedNames(Entries(node)));
  }

  /** Not recursively: the directory's header and, if it can be read, its entries in strictly
      ascending order, each that stat finds; and nothing else. */
  lemma FlatWalk(node: Node, path: string)
    requires node.Dir?
    ensures var lines := Preorder(node, path, false);
      && lines != [] && lines[0] == Header(path) && (!node.readable ==> |lines| == 1)
      && (forall i :: 1 <= i < |lines| ==> lines[i].Info?)
      && (forall i, j :: 1 <= i < j < |lines| ==> Below(lines[i].name, lines[j].name))
      && (forall n :: Info(n) in lines <==>
            node.readable && (n == "." || n == ".." || (n in node.kids && !node.kids[n].Broken?)))
  {
    if node.readable {
      var own := Infos(node, SortedNames(Entries(node)));
      EntriesAreSorted(node, own);
      assert Preorder(node, path, false) == [Header(path)] + own;
    }
  }

  /** The recursive walks of these subdirectories, one after another. */
  ghost function Blocks(node: Node, path: string, subs: seq<Name>): seq<Line>
    requires node.Dir? && forall n :: n in subs ==> n in node.kids && node.kids[n].Dir?
  {
    if subs == [] then []
    else
      var last := subs[|subs| - 1];
      Blocks(node, path, subs[..|subs| - 1]) + Preorder(node.kids[last], path + "/" + last, true)
  }

  /** The subdirectories among these names. */
  function Subdirs(node: Node, names: seq<Name>): (subs: seq<Name>)
    requires node.Dir?
    ensures forall n :: n in subs <==> n in names && IsSubdir(node, n)
  {
    if names == [] then []
    else
      var last := names[|names| - 1];
      assert names == names[..|names| - 1] + [last];
      Subdirs(node, names[..|names| - 1]) + if IsSubdir(node, last) then [last] else []
  }

  lemma {:induction false} SubdirsKeepOrder(node: Node, names: seq<Name>)
    requires node.Dir? && StrictlySorted(names)
    ensures StrictlySorted(Subdirs(node, names))
  {
    if names != [] {
      var before, last := names[..|names| - 1], names[|names| - 1];
      SubdirsKeepOrder(node, before);
      assert names == before + [last];
      assert forall n :: n in before ==> Below(n, last);
    }
  }

  lemma {:induction false} SubtreesAreBlocks(node: Node, path: string, names: seq<Name>)
    requires node.Dir?
    ensures Subtrees(node, path, names) == Blocks(node, path, Subdirs(node, names))
    decreases |names|
  {
    if names != [] {
      var before, last := names[..|names| - 1], names[|names| - 1];
      var subs := Subdirs(node, before);
      SubtreesAreBlocks(node, path, before);
      if IsSubdir(node, last) {
        assert (subs + [last])[..|subs|] == subs;
        assert Blocks(node, path, subs + [last]) == Blocks(node, path, subs) + Subtree(node, path, last);
      } else {
        assert Subdirs(node, names) == subs;
      }
    }
  }

  /** The one ascending list of the subdirectories. */
  lemma SubdirsUnique(node: Node, names: seq<Name>, subs: seq<Name>)
    requires node.Dir? && WellNamed(node) && SortedListOf(names, Entries(node)) && StrictlySorted(subs)
    requires forall n :: n in subs <==> n in node.kids && node.kids[n].Dir?
    ensures subs == Subdirs(node, names)
  {
    SubdirsKeepOrder(node, names);
    SortedListUnique(subs, Subdirs(node, names), set n | n in node.kids && node.kids[n].Dir?);
  }

  lemma RecursiveSplit(node: Node, path: string)
    requires node.Dir? && node.readable
    ensures Preorder(node, path, true)
         == Preorder(node, path, false) + Subtrees(node, path, SortedNames(Entries(node)))
  {
    var names := SortedNames(Entries(node));
    Regroup([Header(path)], Infos(node, names), Subtrees(node, path, names));
    assert Listing(node, path, names, true) == Infos(node, names) + Subtrees(node, path, names);
    assert Listing(node, path, names, false) == Infos(node, names) + [];
  }

  lemma Regroup(header: seq<Line>, own: seq<Line>, below: seq<Line>)
    ensures header + (own + below) == header + (own + []) + below
  {
  }

  /** Recursively: the same lines, directly followed by the recursive walks of the
      subdirectories in ascending order, each in one piece; none below an unreadable one. */
  lemma RecursiveLayout(node: Node, path: string, subs: seq<Name>)
    requires node.Dir? && WellNamed(node) && StrictlySorted(subs)
    requires forall n :: n in subs <==> node.readable && n in node.kids && node.kids[n].Dir?
    ensures Preorder(node, path, true) == Preorder(node, path, false) + Blocks(node, path, subs)
  {
    assert forall i :: 0 <= i < |subs| ==> subs[i] in subs;
    if node.readable {
      RecursiveSplit(node, path);
      SubdirsUnique(node, SortedNames(Entries(node)), subs);
      SubtreesAreBlocks(node, path, SortedNames(Entries(node)));
    }
  }

  lemma {:induction false} InfosKeepOrder(node: Node, names: seq<Name>)
    requires node.Dir? && StrictlySorted(names)
    ensures var lines := Infos(node, names);
      && (forall i :: 0 <= i < |lines| ==> lines[i].Info? && lines[i].name in names)
      && (forall i, j :: 0 <= i < j < |lines| ==> Below(lines[i].name, lines[j].name))
      && (forall n :: Info(n) in lines <==> n in names && Exists(node, n))
  {
    if names != [] {
      var before, last := names[..|names| - 1], names[|names| - 1];
      InfosKeepOrder(node, before);
      assert names == before + [last];
      assert forall n :: n in before ==> Below(n, last);
    }
  }
}
