/** File names in strcmp order, and the one sorted list of a set of names. */
module Names {
  type Name = string

  /** strcmp(a, b) <= 0 */
  predicate AtMost(a: Name, b: Name)
  {
    a == [] || (b != [] && (a[0] < b[0] || (a[0] == b[0] && AtMost(a[1..], b[1..]))))
  }

  predicate Below(a: Name, b: Name) { a != b && AtMost(a, b) }

  /** Before the first difference the names are equal; there the smaller character, or the
      end of the name, comes first. */
  lemma {:induction false} BelowExactly(a: Name, b: Name)
    ensures Below(a, b) <==> exists k :: 0 <= k <= |a| && DiffersAt(a, b, k)
  {
    forall k | 0 < k <= |a| && DiffersAt(a, b, k) ensures a[0] == b[0] {
      assert a[..k][0] == b[..k][0];
    }
    if a != [] && b != [] && a[0] == b[0] {
      BelowExactly(a[1..], b[1..]);
      assert a == [a[0]] + a[1..] && b == [b[0]] + b[1..];
      if Below(a, b) {
        var k :| 0 <= k <= |a[1..]| && DiffersAt(a[1..], b[1..], k);
        assert a[..k + 1] == [a[0]] + a[1..][..k] && b[..k + 1] == [b[0]] + b[1..][..k];
        assert DiffersAt(a, b, k + 1);
      } else if k :| 0 <= k <= |a| && DiffersAt(a, b, k) {
        assert a[1..][..k - 1] == a[..k][1..] && b[1..][..k - 1] == b[..k][1..];
        assert DiffersAt(a[1..], b[1..], k - 1);
      }
    } else if Below(a, b) {
      assert DiffersAt(a, b, 0);
    }
  }

  predicate DiffersAt(a: Name, b: Name, k: nat)
  {
    && k <= |a| && k < |b| && a[..k] == b[..k]
    && (k == |a| || a[k] < b[k])
  }

  lemma {:induction false} AtMostReflexive(a: Name)
    ensures AtMost(a, a)
  {
    if a != [] { AtMostReflexive(a[1..]); }
  }

  lemma {:induction false} AtMostTotal(a: Name, b: Name)
    ensures AtMost(a, b) || AtMost(b, a)
  {
    if a != [] && b != [] && a[0] == b[0] { AtMostTotal(a[1..], b[1..]); }
  }

  lemma {:induction false} AtMostAntisymmetric(a: Name, b: Name)
    requires AtMost(a, b) && AtMost(b, a)
    ensures a == b
  {
    if a != [] && b != [] {
      AtMostAntisymmetric(a[1..], b[1..]);
      assert a == [a[0]] + a[1..] && b == [b[0]] + b[1..];
    }
  }

  lemma {:induction false} AtMostTransitive(a: Name, b: Name, c: Name)
    requires AtMost(a, b) && AtMost(b, c)
    ensures AtMost(a, c)
  {
    if a != [] && a[0] == b[0] && b[0] == c[0] { AtMostTransitive(a[1..], b[1..], c[1..]); }
  }

  predicate Sorted(names: seq<Name>)
  {
    forall i, j :: 0 <= i < j < |names| ==> AtMost(names[i], names[j])
  }

  predicate StrictlySorted(names: seq<Name>)
  {
    forall i, j :: 0 <= i < j < |names| ==> Below(names[i], names[j])
  }

  /** The list is sorted and holds each name of the set once. */
  ghost predicate SortedListOf(names: seq<Name>, s: set<Name>)
  {
    StrictlySorted(names) && (forall n :: n in names <==> n in s)
  }

  /** There is only one such list. */
  lemma {:induction false} SortedListUnique(xs: seq<Name>, ys: seq<Name>, s: set<Name>)
    requires SortedListOf(xs, s) && SortedListOf(ys, s)
    ensures xs == ys
    decreases |xs|
  {
    assert xs != [] ==> xs[0] in ys;
    assert ys != [] ==> ys[0] in xs;
    if xs != [] {
      var i :| 0 <= i < |ys| && ys[i] == xs[0];
      var j :| 0 <= j < |xs| && xs[j] == ys[0];
      if i > 0 { assert AtMost(ys[0], ys[i]); } else { AtMostReflexive(xs[0]); }
      if j > 0 { assert AtMost(xs[0], xs[j]); } else { AtMostReflexive(xs[0]); }
      AtMostAntisymmetric(xs[0], ys[0]);
      TailOf(xs, s);
      TailOf(ys, s);
      SortedListUnique(xs[1..], ys[1..], s - {xs[0]});
      assert xs == [xs[0]] + xs[1..] && ys == [ys[0]] + ys[1..];
    }
  }

  lemma TailOf(xs: seq<Name>, s: set<Name>)
    requires SortedListOf(xs, s) && xs != []
    ensures SortedListOf(xs[1..], s - {xs[0]})
  {
    assert forall k :: 0 < k < |xs| ==> Below(xs[0], xs[k]);
    assert xs == [xs[0]] + xs[1..];
  }

  lemma {:induction false} LeastOf(s: set<Name>) returns (m: Name)
    requires s != {}
    ensures m in s && forall n :: n in s ==> AtMost(m, n)
    decreases |s|
  {
    var x :| x in s;
    AtMostReflexive(x);
    if s == {x} {
      m := x;
    } else {
      assert |s - {x}| < |s| && s - {x} != {};
      var y := LeastOf(s - {x});
      AtMostTotal(x, y);
      if AtMost(x, y) {
        m := x;
        forall n | n in s - {x} ensures AtMost(x, n) { AtMostTransitive(x, y, n); }
      } else {
        m := y;
      }
    }
  }

  lemma {:induction false} SortedListExists(s: set<Name>)
    ensures exists names :: SortedListOf(names, s)
    decreases |s|
  {
    if s == {} {
      assert SortedListOf([], s);
    } else {
      var m := LeastOf(s);
      assert |s - {m}| < |s|;
      SortedListExists(s - {m});
      var rest :| SortedListOf(rest, s - {m});
      assert forall k :: 0 <= k < |rest| ==> rest[k] in s - {m};
      assert SortedListOf([m] + rest, s);
    }
  }

  /** The names of a set in strcmp order. */
  ghost function SortedNames(s: set<Name>): (names: seq<Name>)
    ensures SortedListOf(names, s)
  {
    SortedListExists(s);
    var names :| SortedListOf(names, s);
    names
  }

  /** qsort with strcmp, as selection: what the library call is relied on for. */
  method Qsort(files: array<Name>)
    modifies files
    ensures Sorted(files[..]) && multiset(files[..]) == multiset(old(files[..]))
  {
    for i := 0 to files.Length
      invariant forall a, b :: 0 <= a < i && a < b < files.Length ==> AtMost(files[a], files[b])
      invariant multiset(files[..]) == multiset(old(files[..]))
    {
      var least := LeastFrom(files, i);
      files[i], files[least] := files[least], files[i];
    }
  }

  method LeastFrom(files: array<Name>, from: nat) returns (least: nat)
    requires from < files.Length
    ensures from <= least < files.Length
    ensures forall k :: from <= k < files.Length ==> AtMost(files[least], files[k])
  {
    least := from;
    AtMostReflexive(files[from]);
    for k := from + 1 to files.Length
      invariant from <= least < k
      invariant forall j :: from <= j < k ==> AtMost(files[least], files[j])
    {
      if !AtMost(files[least], files[k]) {
        AtMostTotal(files[least], files[k]);
        forall j | from <= j < k ensures AtMost(files[k], files[j]) {
          AtMostTransitive(files[k], files[least], files[j]);
        }
        least := k;
        AtMostReflexive(files[k]);
      }
    }
  }
}
