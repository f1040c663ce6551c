/// Sequences, PHP's ordered arrays and PHP's implode, as the extender uses them.
module Collections {

  datatype Option<T> = None | Some(value: T)

  /** No element occurs twice. */
  predicate Distinct<T(==)>(s: seq<T>)
  {
    forall i, j :: 0 <= i < j < |s| ==> s[i] != s[j]
  }

  lemma DistinctConcat<T>(a: seq<T>, b: seq<T>)
    requires Distinct(a) && Distinct(b)
    requires forall x :: x in a ==> x !in b
    ensures Distinct(a + b)
  {
    forall i, j | 0 <= i < j < |a + b|
      ensures (a + b)[i] != (a + b)[j]
    {
      if i < |a| && |a| <= j {
        assert (a + b)[i] in a && (a + b)[j] == b[j - |a|];
      }
    }
  }

  /** The elements of `s` that satisfy `p`, in their order in `s`. */
  function Filter<T>(s: seq<T>, p: T -> bool): seq<T>
  {
    if s == [] then [] else (if p(s[0]) then [s[0]] else []) + Filter(s[1..], p)
  }

  lemma {:induction false} FilterMembers<T>(s: seq<T>, p: T -> bool)
    ensures forall x :: x in Filter(s, p) <==> x in s && p(x)
  {
    if s != [] {
      FilterMembers(s[1..], p);
      assert forall x :: x in s <==> x == s[0] || x in s[1..];
    }
  }

  lemma {:induction false} FilterAppend<T>(a: seq<T>, b: seq<T>, p: T -> bool)
    ensures Filter(a + b, p) == Filter(a, p) + Filter(b, p)
  {
    if a == [] {
      assert a + b == b;
    } else {
      var head := if p(a[0]) then [a[0]] else [];
      assert (a + b)[0] == a[0];
      assert (a + b)[1..] == a[1..] + b;
      FilterAppend(a[1..], b, p);
      assert Filter(a + b, p) == head + (Filter(a[1..], p) + Filter(b, p));
      AppendAssoc(head, Filter(a[1..], p), Filter(b, p));
    }
  }

  lemma AppendAssoc<T>(a: seq<T>, b: seq<T>, c: seq<T>)
    ensures a + (b + c) == (a + b) + c
  {
  }

  /** The first `|a|` elements of `a + b` are `a`, and the rest are elements of `b`. */
  lemma ConcatParts<T>(a: seq<T>, b: seq<T>)
    ensures (a + b)[..|a|] == a
    ensures forall i :: |a| <= i < |a + b| ==> (a + b)[i] in b
  {
    forall i | |a| <= i < |a + b| ensures (a + b)[i] in b {
      assert (a + b)[i] == b[i - |a|];
    }
  }

  lemma {:induction false} FilterKeepsAll<T>(s: seq<T>, p: T -> bool)
    requires forall x :: x in s ==> p(x)
    ensures Filter(s, p) == s
  {
    if s != [] {
      assert forall x :: x in s[1..] ==> x in s;
      FilterKeepsAll(s[1..], p);
    }
  }

  lemma {:induction false} FilterDistinct<T>(s: seq<T>, p: T -> bool)
    requires Distinct(s)
    ensures Distinct(Filter(s, p))
  {
    if s != [] {
      assert Distinct(s[1..]) by {
        forall i, j | 0 <= i < j < |s[1..]| ensures s[1..][i] != s[1..][j] {
          assert s[1..][i] == s[i + 1] && s[1..][j] == s[j + 1];
        }
      }
      FilterDistinct(s[1..], p);
      assert s[0] !in s[1..] by {
        forall j | 0 <= j < |s[1..]| ensures s[1..][j] != s[0] {
          assert s[1..][j] == s[j + 1];
        }
      }
      FilterMembers(s[1..], p);
      DistinctConcat(if p(s[0]) then [s[0]] else [], Filter(s[1..], p));
    }
  }

  /** Filtering by `p` and by its complement splits `s` without losing or adding anything. */
  lemma {:induction false} FilterSplit<T>(s: seq<T>, p: T -> bool, q: T -> bool)
    requires forall x :: q(x) == !p(x)
    ensures multiset(Filter(s, p) + Filter(s, q)) == multiset(s)
  {
    if s != [] {
      FilterSplit(s[1..], p, q);
      assert s == [s[0]] + s[1..];
    }
  }

  /** `x => x != k`: the test that PHP's `unset` applies to the keys. */
  function Other<K(==)>(k: K): K -> bool
  {
    x => x != k
  }

  /**
   * A PHP array: its keys in insertion order and the value stored under each.
   * A well-formed array has each key once and a value for every key.
   */
  datatype OrderedMap<K, V> = OrderedMap(keys: seq<K>, values: map<K, V>)

  predicate WellFormed<K, V>(a: OrderedMap<K, V>)
  {
    && Distinct(a.keys)
    && (forall k :: k in a.keys ==> k in a.values)
    && (forall k :: k in a.values ==> k in a.keys)
  }

  /** `unset($a[$k])`: the key and its value go; the other keys keep their order. */
  function Unset<K, V>(a: OrderedMap<K, V>, k: K): OrderedMap<K, V>
  {
    OrderedMap(Filter(a.keys, Other(k)), a.values - {k})
  }

  /** `$a[$k] = $v`: a key already present is overwritten where it stands, a new key is appended. */
  function Assign<K, V>(a: OrderedMap<K, V>, k: K, v: V): OrderedMap<K, V>
  {
    OrderedMap(if k in a.keys then a.keys else a.keys + [k], a.values[k := v])
  }

  /** Removing `k` from a sequence that holds it once, between `a` and `b ++ c`. */
  lemma UnsetMiddle<T>(a: seq<T>, k: T, b: seq<T>, c: seq<T>)
    requires k !in a && k !in b && k !in c
    ensures Filter(a + [k] + b + c, Other(k)) == a + b + c
  {
    var p := Other(k);
    assert Filter([k], p) == [] by {
      assert [k][1..] == [];
    }
    FilterKeepsAll(a, p);
    FilterKeepsAll(b, p);
    FilterKeepsAll(c, p);
    FilterAppend(a, [k], p);
    assert Filter(a + [k], p) == a;
    FilterAppend(a + [k], b, p);
    assert Filter(a + [k] + b, p) == a + b;
    FilterAppend(a + [k] + b, c, p);
  }

  lemma DropEmpty<T>(a: seq<T>, e: seq<T>, b: seq<T>)
    requires |e| == 0
    ensures a + e + b == a + b
  {
  }

  /** Unsetting a key and assigning it again moves it to the end. */
  lemma UnsetThenAssign<K, V>(a: OrderedMap<K, V>, k: K, v: V, x: seq<K>, y: seq<K>, z: seq<K>)
    requires a.keys == x + ([k] + y) + z
    requires k !in x && k !in y && k !in z
    ensures Assign(Unset(a, k), k, v).keys == x + y + (z + [k])
  {
    assert a.keys == x + [k] + y + z;
    UnsetMiddle(x, k, y, z);
    assert k !in x + y + z;
  }

  lemma SliceCons<T>(s: seq<T>, i: nat)
    requires i < |s|
    ensures s[i..] == [s[i]] + s[i + 1..]
  {
  }

  /** `Filter(s[..i], p)`, built one element at a time as a loop over `s` builds it. */
  function FilterPrefix<T>(s: seq<T>, i: nat, p: T -> bool): seq<T>
    requires i <= |s|
  {
    if i == 0 then [] else FilterPrefix(s, i - 1, p) + (if p(s[i - 1]) then [s[i - 1]] else [])
  }

  lemma {:induction false} FilterPrefixIsFilter<T>(s: seq<T>, i: nat, p: T -> bool)
    requires i <= |s|
    ensures FilterPrefix(s, i, p) == Filter(s[..i], p)
  {
    if i > 0 {
      FilterPrefixIsFilter(s, i - 1, p);
      assert s[..i] == s[..i - 1] + [s[i - 1]];
      FilterAppend(s[..i - 1], [s[i - 1]], p);
      assert [s[i - 1]][1..] == [];
    }
  }

  lemma FilterPrefixAll<T>(s: seq<T>, p: T -> bool)
    ensures FilterPrefix(s, |s|, p) == Filter(s, p)
  {
    FilterPrefixIsFilter(s, |s|, p);
    assert s[..|s|] == s;
  }

  lemma FilterPrefixMembers<T>(s: seq<T>, i: nat, p: T -> bool)
    requires i <= |s|
    ensures forall x :: x in FilterPrefix(s, i, p) ==> x in s[..i]
  {
    FilterPrefixIsFilter(s, i, p);
    FilterMembers(s[..i], p);
  }

  /** Index of the last occurrence of `x` in `s`. */
  function LastIndex<T(==)>(s: seq<T>, x: T): (i: nat)
    requires x in s
    ensures i < |s| && s[i] == x
    ensures forall j :: i < j < |s| ==> s[j] != x
  {
    if s[|s| - 1] == x then |s| - 1
    else
      assert x in s[..|s| - 1] by {
        var k :| 0 <= k < |s| && s[k] == x;
        assert s[..|s| - 1][k] == x;
      }
      LastIndex(s[..|s| - 1], x)
  }

  /** PHP's `implode($glue, $pieces)`. */
  function Implode(glue: string, pieces: seq<string>): string
  {
    if |pieces| == 0 then ""
    else if |pieces| == 1 then pieces[0]
    else pieces[0] + glue + Implode(glue, pieces[1..])
  }

  /** Cuts a string at every ", "; the inverse of `Implode(", ", ·)` on pieces without commas. */
  function SplitCommaSpace(s: string): (r: seq<string>)
    ensures |r| >= 1
    decreases |s|
  {
    if s == [] then [""]
    else if |s| >= 2 && s[0] == ',' && s[1] == ' ' then [""] + SplitCommaSpace(s[2..])
    else
      var t := SplitCommaSpace(s[1..]);
      [[s[0]] + t[0]] + t[1..]
  }

  lemma {:induction false} SplitWithoutComma(f: string)
    requires ',' !in f
    ensures SplitCommaSpace(f) == [f]
  {
    if f != [] {
      assert forall c :: c in f[1..] ==> c in f;
      SplitWithoutComma(f[1..]);
      assert [f[0]] + f[1..] == f;
    }
  }

  lemma {:induction false} SplitLeadingPiece(f: string, rest: string)
    requires ',' !in f
    ensures SplitCommaSpace(f + ", " + rest) == [f] + SplitCommaSpace(rest)
  {
    if f == [] {
      assert f + ", " + rest == ", " + rest;
      assert (", " + rest)[2..] == rest;
    } else {
      assert (f + ", " + rest)[1..] == f[1..] + ", " + rest;
      assert forall c :: c in f[1..] ==> c in f;
      SplitLeadingPiece(f[1..], rest);
      assert [f[0]] + f[1..] == f;
    }
  }

  /** Pieces without commas are recovered, in order, from their `", "`-implosion. */
  lemma {:induction false} SplitImplode(pieces: seq<string>)
    requires |pieces| >= 1
    requires forall p :: p in pieces ==> ',' !in p
    ensures SplitCommaSpace(Implode(", ", pieces)) == pieces
  {
    if |pieces| == 1 {
      SplitWithoutComma(pieces[0]);
    } else {
      SplitLeadingPiece(pieces[0], Implode(", ", pieces[1..]));
      assert forall p :: p in pieces[1..] ==> p in pieces;
      SplitImplode(pieces[1..]);
      assert pieces == [pieces[0]] + pieces[1..];
    }
  }

  /** Two or more pieces always leave a comma in the implosion. */
  lemma ImplodeHasComma(pieces: seq<string>)
    requires |pieces| >= 2
    ensures ',' in Implode(", ", pieces)
  {
    var s := Implode(", ", pieces);
    assert s == pieces[0] + ", " + Implode(", ", pieces[1..]);
    assert s[|pieces[0]|] == ',';
  }

  /** Appending `x` makes it the last occurrence and leaves every other last occurrence where it was. */
  lemma LastIndexSnoc<T>(s: seq<T>, x: T)
    ensures LastIndex(s + [x], x) == |s|
    ensures forall k :: k in s && k != x ==> LastIndex(s + [x], k) == LastIndex(s, k)
  {
    forall k | k in s && k != x ensures LastIndex(s + [x], k) == LastIndex(s, k) {
      assert (s + [x])[..|s|] == s;
    }
  }

  /** A sequence without repetitions has as many distinct elements as it is long. */
  lemma {:induction false} DistinctCard<T>(s: seq<T>)
    requires Distinct(s)
    ensures |set x | x in s| == |s|
  {
    if s != [] {
      var rest := s[1..];
      assert Distinct(rest) by {
        forall i, j | 0 <= i < j < |rest| ensures rest[i] != rest[j] {
          assert rest[i] == s[i + 1] && rest[j] == s[j + 1];
        }
      }
      DistinctCard(rest);
      assert s[0] !in rest by {
        forall j | 0 <= j < |rest| ensures rest[j] != s[0] {
          assert rest[j] == s[j + 1];
        }
      }
      assert (set x | x in s) == (set x | x in rest) + {s[0]};
    }
  }

  lemma ConcatIndex<T>(a: seq<T>, b: seq<T>, i: nat)
    requires i < |a + b|
    ensures i < |a| ==> (a + b)[i] in a
    ensures i >= |a| ==> (a + b)[i] in b
  {
    if i >= |a| {
      assert (a + b)[i] == b[i - |a|];
    }
  }

  /**
   * `rows` is `table` after `$rows[$listing[j]] = $written[j]` for each `j` in
   * turn, every key being one `table` already holds: the keys keep their
   * places, and a written key holds the value of its last write.
   */
  ghost predicate WrittenOver<K, V>(rows: OrderedMap<K, V>, table: OrderedMap<K, V>, listing: seq<K>, written: seq<V>)
  {
    && |written| == |listing|
    && rows.keys == table.keys
    && rows.values.Keys == table.values.Keys
    && forall k :: k in rows.values ==>
         rows.values[k] == (if k in listing then written[LastIndex(listing, k)] else table.values[k])
  }

  lemma WrittenOverStart<K, V>(table: OrderedMap<K, V>)
    ensures WrittenOver(table, table, [], [])
  {
  }

  lemma WrittenOverStep<K, V>(rows: OrderedMap<K, V>, table: OrderedMap<K, V>, listing: seq<K>, written: seq<V>, k: K, v: V)
    requires WrittenOver(rows, table, listing, written)
    requires k in table.keys && k in table.values
    ensures WrittenOver(Assign(rows, k, v), table, listing + [k], written + [v])
  {
    LastIndexSnoc(listing, k);
    var next := Assign(rows, k, v);
    forall x | x in next.values
      ensures next.values[x] == (if x in listing + [k] then (written + [v])[LastIndex(listing + [k], x)] else table.values[x])
    {
      if x != k {
        assert x in listing + [k] <==> x in listing;
      }
    }
  }
}
