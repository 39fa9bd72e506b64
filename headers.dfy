/** `http_headers_container`: a multimap from header name to value,
    ordered by `default_filed_name_compare` (a case-insensitive
    lexicographic comparison). It keeps duplicate names; entries with
    equivalent names stay in insertion order. It is modelled as the
    sequence of entries in iteration order. */
module Headers {
  import opened Text

  datatype Field = Field(name: string, value: string)

  type HeaderMap = seq<Field>

  /** `default_filed_name_compare`: `std::lexicographical_compare` whose
      element order is `tolower(c1) < tolower(c2)`. */
  predicate NameLess(a: string, b: string)
  {
    if |a| == 0 then |b| > 0
    else if |b| == 0 then false
    else if LowerChar(a[0]) < LowerChar(b[0]) then true
    else if LowerChar(b[0]) < LowerChar(a[0]) then false
    else NameLess(a[1..], b[1..])
  }

  /** Plain lexicographic order on character sequences. */
  predicate LexLess(x: string, y: string)
  {
    if |x| == 0 then |y| > 0
    else if |y| == 0 then false
    else if x[0] < y[0] then true
    else if y[0] < x[0] then false
    else LexLess(x[1..], y[1..])
  }

  lemma {:induction false} LexTransitive(x: string, y: string, z: string)
    requires LexLess(x, y) && LexLess(y, z)
    ensures LexLess(x, z)
  {
    if |x| > 0 && |y| > 0 && |z| > 0 && x[0] == y[0] && y[0] == z[0] {
      LexTransitive(x[1..], y[1..], z[1..]);
    }
  }

  lemma {:induction false} LexTotal(x: string, y: string)
    ensures x == y || LexLess(x, y) || LexLess(y, x)
    ensures !(LexLess(x, y) && LexLess(y, x))
    ensures !LexLess(x, x)
  {
    if |x| > 0 && |y| > 0 && x[0] == y[0] {
      LexTotal(x[1..], y[1..]);
      if x[1..] == y[1..] {
        assert x == [x[0]] + x[1..] && y == [y[0]] + y[1..];
      }
    } else if |x| > 0 {
      LexTotal(x[1..], x[1..]);
    }
  }

  /** The comparator is lexicographic order on the lower-cased names. */
  lemma {:induction false} NameLessIsLexOfLower(a: string, b: string)
    ensures NameLess(a, b) <==> LexLess(Lower(a), Lower(b))
  {
    if |a| > 0 && |b| > 0 {
      assert Lower(a)[1..] == Lower(a[1..]);
      assert Lower(b)[1..] == Lower(b[1..]);
      NameLessIsLexOfLower(a[1..], b[1..]);
    }
  }

  /** Two names denote the same key of the multimap: equal after
      per-character lower-casing (which implies equal length). */
  predicate SameName(a: string, b: string)
  {
    Lower(a) == Lower(b)
  }

  /** The comparator is a strict weak order, and its incomparability
      relation is exactly `SameName`: same length and equal after
      lower-casing. */
  lemma StrictWeakOrder(a: string, b: string, c: string)
    ensures !NameLess(a, a)
    ensures NameLess(a, b) && NameLess(b, c) ==> NameLess(a, c)
    ensures (!NameLess(a, b) && !NameLess(b, a)) <==> SameName(a, b)
    ensures SameName(a, b) ==> |a| == |b|
  {
    NameLessIsLexOfLower(a, a);
    NameLessIsLexOfLower(a, b);
    NameLessIsLexOfLower(b, a);
    NameLessIsLexOfLower(b, c);
    NameLessIsLexOfLower(a, c);
    LexTotal(Lower(a), Lower(a));
    LexTotal(Lower(a), Lower(b));
    if NameLess(a, b) && NameLess(b, c) {
      LexTransitive(Lower(a), Lower(b), Lower(c));
    }
  }

  /** Below `a` and not below... : if `c < a` and `a <= b` then `c < b`. */
  lemma NotLessChain(a: string, b: string, c: string)
    requires !NameLess(b, a) && NameLess(c, a)
    ensures NameLess(c, b)
  {
    NameLessIsLexOfLower(b, a);
    NameLessIsLexOfLower(c, a);
    NameLessIsLexOfLower(c, b);
    LexTotal(Lower(a), Lower(b));
    if LexLess(Lower(a), Lower(b)) {
      LexTransitive(Lower(c), Lower(a), Lower(b));
    }
  }

  lemma NameLessAsymmetric(a: string, b: string)
    requires NameLess(a, b)
    ensures !NameLess(b, a)
  {
    NameLessIsLexOfLower(a, b);
    NameLessIsLexOfLower(b, a);
    LexTotal(Lower(a), Lower(b));
  }

  /** Entry `j` does not sort before an earlier entry `i` (vacuous unless
      `0 <= i < j < |h|`). */
  ghost predicate InOrder(h: HeaderMap, i: int, j: int)
  {
    0 <= i < j < |h| ==> !NameLess(h[j].name, h[i].name)
  }

  /** Entries appear in non-decreasing name order. */
  ghost predicate Sorted(h: HeaderMap)
  {
    forall i, j :: InOrder(h, i, j)
  }

  lemma SortedTail(h: HeaderMap)
    requires Sorted(h) && h != []
    ensures Sorted(h[1..])
  {
    forall i, j ensures InOrder(h[1..], i, j) {
      assert InOrder(h, i + 1, j + 1);
    }
  }

  /** The entries with a name equivalent to `name`, in map order. */
  function Named(h: HeaderMap, name: string): (r: HeaderMap)
    ensures |r| <= |h|
  {
    if h == [] then []
    else (if SameName(h[0].name, name) then [h[0]] else []) + Named(h[1..], name)
  }

  /** The entries `Named` picks come from the map and carry an equivalent
      name. */
  lemma {:induction false} NamedMembers(h: HeaderMap, name: string)
    ensures forall f :: f in Named(h, name) ==> f in h && SameName(f.name, name)
  {
    if h != [] {
      NamedMembers(h[1..], name);
    }
  }

  lemma {:induction false} NamedAppend(a: HeaderMap, b: HeaderMap, name: string)
    ensures Named(a + b, name) == Named(a, name) + Named(b, name)
  {
    if a != [] {
      assert (a + b)[1..] == a[1..] + b;
      NamedAppend(a[1..], b, name);
    } else {
      assert a + b == b;
    }
  }

  /** Position at which `multimap::insert` places a new key: after every
      entry whose name is not greater than it (the upper bound). */
  function UpperBound(h: HeaderMap, name: string): (r: nat)
    ensures r <= |h|
    ensures forall i :: 0 <= i < r ==> !NameLess(name, h[i].name)
    ensures Sorted(h) ==> forall i :: r <= i < |h| ==> NameLess(name, h[i].name)
  {
    if h == [] then 0
    else if NameLess(name, h[0].name) then
      assert Sorted(h) ==> forall i :: 0 <= i < |h| ==> NameLess(name, h[i].name) by {
        if Sorted(h) {
          forall i | 0 <= i < |h| ensures NameLess(name, h[i].name) {
            if i > 0 {
              assert InOrder(h, 0, i);
              NotLessChain(h[0].name, h[i].name, name);
            }
          }
        }
      }
      0
    else
      assert Sorted(h) ==> Sorted(h[1..]) by {
        if Sorted(h) {
          SortedTail(h);
        }
      }
      1 + UpperBound(h[1..], name)
  }

  /** `multimap::insert`: the new entry goes after every entry whose name
      is not greater than its own, i.e. to the upper bound of its name. */
  function Insert(h: HeaderMap, name: string, value: string): (r: HeaderMap)
    ensures |r| == |h| + 1
  {
    if h == [] || NameLess(name, h[0].name) then [Field(name, value)] + h
    else [h[0]] + Insert(h[1..], name, value)
  }

  /** The insert splits the map at the upper bound of the name. */
  lemma {:induction false} InsertSplice(h: HeaderMap, name: string, value: string)
    ensures Insert(h, name, value)
         == h[..UpperBound(h, name)] + [Field(name, value)] + h[UpperBound(h, name)..]
  {
    var f := Field(name, value);
    if h == [] || NameLess(name, h[0].name) {
      assert h[..0] == [] && h[0..] == h;
    } else {
      var t := h[1..];
      var u := UpperBound(t, name);
      assert UpperBound(h, name) == u + 1;
      assert Insert(h, name, value) == [h[0]] + Insert(t, name, value);
      InsertSplice(t, name, value);
      SliceAfterHead(h, u);
      ConsRegroup(h[0], t[..u], [f], t[u..]);
    }
  }

  lemma SliceAfterHead<T>(h: seq<T>, u: nat)
    requires u < |h|
    ensures h[..u + 1] == [h[0]] + h[1..][..u] && h[u + 1..] == h[1..][u..]
  {
  }

  lemma ConsRegroup<T>(x: T, a: seq<T>, b: seq<T>, c: seq<T>)
    ensures [x] + (a + b + c) == ([x] + a) + b + c
  {
  }

  /** Inserting into a map in order keeps it in order. */
  lemma InsertKeepsSorted(h: HeaderMap, name: string, value: string)
    requires Sorted(h)
    ensures Sorted(Insert(h, name, value))
  {
    InsertSplice(h, name, value);
    InsertSorted(h, UpperBound(h, name), Field(name, value));
  }

  /** Insertion adds exactly the new field to the map's contents. */
  lemma InsertMultiset(h: HeaderMap, name: string, value: string)
    ensures multiset(Insert(h, name, value)) == multiset(h) + multiset{Field(name, value)}
  {
    InsertSplice(h, name, value);
    InsertCounts(h, UpperBound(h, name), Field(name, value));
  }

  /** What an insert does to the contents: the map gains exactly the new
      entry, the new entry comes after every entry of an equivalent name,
      and the entries of every other name are untouched. */
  lemma InsertContents(h: HeaderMap, name: string, value: string)
    requires Sorted(h)
    ensures multiset(Insert(h, name, value)) == multiset(h) + multiset{Field(name, value)}
    ensures Named(Insert(h, name, value), name) == Named(h, name) + [Field(name, value)]
    ensures forall other :: !SameName(other, name) ==>
      Named(Insert(h, name, value), other) == Named(h, other)
  {
    var u := UpperBound(h, name);
    var f := Field(name, value);
    InsertMultiset(h, name, value);
    InsertSplice(h, name, value);
    NamedAfterUpperBoundEmpty(h, name, u);
    InsertNamed(h, u, f);
  }

  lemma InsertSorted(h: HeaderMap, u: nat, f: Field)
    requires Sorted(h) && u == UpperBound(h, f.name)
    ensures Sorted(h[..u] + [f] + h[u..])
  {
    var r := h[..u] + [f] + h[u..];
    forall i, j ensures InOrder(r, i, j) {
      if 0 <= i < j < |r| {
        if i < u && j == u {
          assert r[i] == h[i] && r[j] == f;
        } else if i == u && j > u {
          assert r[i] == f && r[j] == h[j - 1];
          NameLessAsymmetric(f.name, h[j - 1].name);
        } else if i < u && j > u {
          assert r[i] == h[i] && r[j] == h[j - 1];
          assert InOrder(h, i, j - 1);
        } else if j < u {
          assert r[i] == h[i] && r[j] == h[j];
          assert InOrder(h, i, j);
        } else {
          assert r[i] == h[i - 1] && r[j] == h[j - 1];
          assert InOrder(h, i - 1, j - 1);
        }
      }
    }
  }

  lemma InsertCounts(h: HeaderMap, u: nat, f: Field)
    requires u <= |h|
    ensures |h[..u] + [f] + h[u..]| == |h| + 1
    ensures multiset(h[..u] + [f] + h[u..]) == multiset(h) + multiset{f}
  {
    assert h == h[..u] + h[u..];
    calc {
      multiset(h[..u] + [f] + h[u..]);
      multiset(h[..u]) + multiset([f]) + multiset(h[u..]);
      multiset(h[..u] + h[u..]) + multiset{f};
    }
  }

  lemma {:induction false} NamedSplit3(a: HeaderMap, f: Field, b: HeaderMap, n: string)
    ensures Named(a + [f] + b, n) ==
      Named(a, n) + (if SameName(f.name, n) then [f] else []) + Named(b, n)
    ensures Named(a + b, n) == Named(a, n) + Named(b, n)
  {
    assert Named([f], n) == (if SameName(f.name, n) then [f] else []) + Named([], n);
    NamedAppend(a + [f], b, n);
    NamedAppend(a, [f], n);
    NamedAppend(a, b, n);
  }

  lemma {:induction false} InsertNamed(h: HeaderMap, u: nat, f: Field)
    requires u <= |h| && Named(h[u..], f.name) == []
    ensures Named(h[..u] + [f] + h[u..], f.name) == Named(h, f.name) + [f]
    ensures forall other :: !SameName(other, f.name) ==>
      Named(h[..u] + [f] + h[u..], other) == Named(h, other)
  {
    assert h == h[..u] + h[u..];
    NamedSplit3(h[..u], f, h[u..], f.name);
    forall other | !SameName(other, f.name)
      ensures Named(h[..u] + [f] + h[u..], other) == Named(h, other)
    {
      InsertNamedOther(h, u, f, other);
    }
  }

  lemma {:induction false} InsertNamedOther(h: HeaderMap, u: nat, f: Field, other: string)
    requires u <= |h| && !SameName(other, f.name)
    ensures Named(h[..u] + [f] + h[u..], other) == Named(h, other)
  {
    NamedSplit3(h[..u], f, h[u..], other);
    assert h == h[..u] + h[u..];
  }

  lemma {:induction false} NamedAfterUpperBoundEmpty(h: HeaderMap, name: string, u: nat)
    requires Sorted(h) && u == UpperBound(h, name)
    ensures Named(h[u..], name) == []
  {
    NoneNamed(h[u..], name);
  }

  lemma {:induction false} NoneNamed(t: HeaderMap, name: string)
    requires forall i :: 0 <= i < |t| ==> NameLess(name, t[i].name)
    ensures Named(t, name) == []
  {
    if t != [] {
      StrictWeakOrder(name, t[0].name, name);
      NoneNamed(t[1..], name);
    }
  }

  /** Inserting a name that no entry exceeds appends at the end. */
  lemma {:induction false} InsertAtEnd(h: HeaderMap, name: string, value: string)
    requires forall i :: 0 <= i < |h| ==> !NameLess(name, h[i].name)
    ensures Insert(h, name, value) == h + [Field(name, value)]
  {
    if h != [] {
      assert !NameLess(name, h[0].name);
      InsertAtEnd(h[1..], name, value);
      assert [h[0]] + (h[1..] + [Field(name, value)]) == h + [Field(name, value)];
    }
  }

  /** Inserting every field of `fs` in turn. */
  function InsertAll(h: HeaderMap, fs: seq<Field>): (r: HeaderMap)
    ensures |r| == |h| + |fs|
    decreases |fs|
  {
    if fs == [] then h else InsertAll(Insert(h, fs[0].name, fs[0].value), fs[1..])
  }

  lemma {:induction false} InsertAllKeepsSorted(h: HeaderMap, fs: seq<Field>)
    requires Sorted(h)
    decreases |fs|
    ensures Sorted(InsertAll(h, fs))
  {
    if fs != [] {
      InsertKeepsSorted(h, fs[0].name, fs[0].value);
      InsertAllKeepsSorted(Insert(h, fs[0].name, fs[0].value), fs[1..]);
    }
  }

  /** Inserting an already sorted field list into an empty map rebuilds
      that very list: iteration order is insertion order within a name. */
  lemma {:induction false} InsertAllSorted(h: HeaderMap, fs: seq<Field>)
    requires Sorted(h + fs)
    decreases |fs|
    ensures Sorted(h)
    ensures InsertAll(h, fs) == h + fs
  {
    assert Sorted(h) by {
      forall i, j ensures InOrder(h, i, j) {
        if 0 <= i < j < |h| {
          assert (h + fs)[i] == h[i] && (h + fs)[j] == h[j];
          assert InOrder(h + fs, i, j);
        }
      }
    }
    if fs != [] {
      var f := fs[0];
      forall i | 0 <= i < |h| ensures !NameLess(f.name, h[i].name) {
        assert (h + fs)[i] == h[i] && (h + fs)[|h|] == f;
        assert InOrder(h + fs, i, |h|);
      }
      InsertAtEnd(h, f.name, f.value);
      assert (h + [f]) + fs[1..] == h + fs;
      InsertAllSorted(h + [f], fs[1..]);
    }
  }

  /** `multimap::find` (what `get_header_value` returns): the value of the
      first entry with an equivalent name. */
  function Find(h: HeaderMap, name: string): (r: Option<string>)
    ensures r.None? <==> Named(h, name) == []
    ensures r.Some? ==> r.value == Named(h, name)[0].value
  {
    if h == [] then None
    else if SameName(h[0].name, name) then Some(h[0].value)
    else Find(h[1..], name)
  }

  /** The same lookup with the key already lower-cased, as the
      comparator sees it: the first entry whose lower-cased name is
      `folded`. */
  function FindFolded(h: HeaderMap, folded: string): (r: Option<string>)
  {
    if h == [] then None
    else if Lower(h[0].name) == folded then Some(h[0].value)
    else FindFolded(h[1..], folded)
  }

  /** Looking up a name is looking up its lower-cased form. */
  lemma {:induction false} FindFoldedIsFind(h: HeaderMap, name: string)
    ensures FindFolded(h, Lower(name)) == Find(h, name)
  {
    if h != [] {
      FindFoldedIsFind(h[1..], name);
    }
  }

  /** Lookup is case-insensitive. */
  lemma {:induction false} FindIgnoresCase(h: HeaderMap, a: string, b: string)
    requires Lower(a) == Lower(b)
    ensures Find(h, a) == Find(h, b)
  {
    if h != [] {
      FindIgnoresCase(h[1..], a, b);
    }
  }

  /** After an insert, lookup of that name sees the earliest entry: an
      earlier duplicate wins, otherwise the new value. */
  lemma FindAfterInsert(h: HeaderMap, name: string, value: string)
    requires Sorted(h)
    ensures Find(Insert(h, name, value), name) ==
      if Find(h, name).Some? then Find(h, name) else Some(value)
  {
    InsertContents(h, name, value);
  }

  /** `multimap::erase(key)`: drops every entry of an equivalent name and
      reports how many there were; the rest keep their order. */
  function Erase(h: HeaderMap, name: string): (r: (HeaderMap, nat))
    ensures r.1 == |Named(h, name)|
    ensures |r.0| + r.1 == |h|
    ensures Named(r.0, name) == []
    ensures forall other :: !SameName(other, name) ==> Named(r.0, other) == Named(h, other)
    ensures forall f :: f in r.0 ==> f in h
  {
    if h == [] then ([], 0)
    else
      var rest := Erase(h[1..], name);
      if SameName(h[0].name, name) then (rest.0, rest.1 + 1)
      else ([h[0]] + rest.0, rest.1)
  }

  lemma {:induction false} EraseKeepsSorted(h: HeaderMap, name: string)
    requires Sorted(h)
    ensures Sorted(Erase(h, name).0)
    ensures forall f :: f in Erase(h, name).0 ==> f in h
  {
    if h != [] {
      SortedTail(h);
      EraseKeepsSorted(h[1..], name);
      var rest := Erase(h[1..], name).0;
      if !SameName(h[0].name, name) {
        forall f | f in rest ensures !NameLess(f.name, h[0].name) {
          var j :| 1 <= j < |h| && h[j] == f;
          assert InOrder(h, 0, j);
        }
        SortedCons(h[0], rest);
      }
    }
  }

  lemma SortedCons(f: Field, rest: HeaderMap)
    requires Sorted(rest)
    requires forall g :: g in rest ==> !NameLess(g.name, f.name)
    ensures Sorted([f] + rest)
  {
    var r := [f] + rest;
    forall i, j ensures InOrder(r, i, j) {
      if 0 <= i < j < |r| {
        if i > 0 {
          assert r[i] == rest[i - 1] && r[j] == rest[j - 1];
          assert InOrder(rest, i - 1, j - 1);
        } else {
          assert r[j] in rest;
        }
      }
    }
  }

  /** One header line as `encode_to_data` writes it: name, colon, space,
      value, CRLF. */
  function EncodeField(f: Field): (r: string)
    ensures |r| == |f.name| + |f.value| + 4
  {
    f.name + ": " + f.value + "\r\n"
  }

  /** The header lines of a map, in iteration order (the loop over
      `_headers_map` in both `encode_to_data` members). */
  function Encode(h: HeaderMap): (r: string)
    ensures |r| >= 4 * |h|
    ensures h == [] <==> r == []
  {
    if h == [] then [] else EncodeField(h[0]) + Encode(h[1..])
  }
}
