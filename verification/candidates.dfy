/**
 The detector's candidates and `GitVulture.all_unused_items`: the four
 result lists concatenated and sorted, stably, by (lower-cased file, line).
 */
module Candidates {
  import opened Text

  /** One item reported unused by the detector. The item is itself the
      string `name`; `typ` is the detector's kind tag ("function",
      "property", "variable" or "attribute"), used only for display. */
  datatype Candidate = Candidate(name: string, file: string, lineno: nat, typ: string)

  /** The sort key `(item.file.lower(), item.lineno)`. */
  type SortKey = (string, nat)

  function KeyOf(c: Candidate): SortKey {
    (Lower(c.file), c.lineno)
  }

  /** `<` on the key tuples: first by path, then by line number. */
  predicate KeyLt(a: SortKey, b: SortKey) {
    StrLt(a.0, b.0) || (a.0 == b.0 && a.1 < b.1)
  }

  /** No item is followed by one whose key is smaller. */
  predicate Sorted(s: seq<Candidate>) {
    forall i, j :: 0 <= i < j < |s| ==> !KeyLt(KeyOf(s[j]), KeyOf(s[i]))
  }

  /** The items of `s` whose key is `k`, in the order of `s`. A sort is
      stable exactly when it keeps every one of these subsequences. */
  function WithKey(s: seq<Candidate>, k: SortKey): (r: seq<Candidate>)
    ensures |r| <= |s|
    ensures forall c :: c in r ==> c in s && KeyOf(c) == k
  {
    if s == [] then []
    else (if KeyOf(s[0]) == k then [s[0]] else []) + WithKey(s[1..], k)
  }

  // ---------------------------------------------------------------------
  // The key order is a strict total order

  lemma KeyLtIrreflexive(a: SortKey)
    ensures !KeyLt(a, a)
  {
    StrLtIrreflexive(a.0);
  }

  lemma KeyLtTransitive(a: SortKey, b: SortKey, c: SortKey)
    requires KeyLt(a, b) && KeyLt(b, c)
    ensures KeyLt(a, c)
  {
    if StrLt(a.0, b.0) && StrLt(b.0, c.0) {
      StrLtTransitive(a.0, b.0, c.0);
    }
  }

  lemma KeyLtTotal(a: SortKey, b: SortKey)
    requires a != b
    ensures KeyLt(a, b) || KeyLt(b, a)
  {
    if a.0 != b.0 {
      StrLtTotal(a.0, b.0);
    }
  }

  /** If `c < a`, every `b` lies above `c` or below `a`. */
  lemma KeyLtSplit(c: SortKey, a: SortKey, b: SortKey)
    ensures KeyLt(c, a) ==> KeyLt(c, b) || KeyLt(b, a)
  {
    if a != b {
      KeyLtTotal(a, b);
      if KeyLt(c, a) && KeyLt(a, b) {
        KeyLtTransitive(c, a, b);
      }
    }
  }

  /** "Not greater than" is transitive. */
  lemma KeyLeTransitive(a: SortKey, b: SortKey, c: SortKey)
    requires !KeyLt(b, a) && !KeyLt(c, b)
    ensures !KeyLt(c, a)
  {
    KeyLtSplit(c, a, b);
  }

  /** Two keys each not greater than the other are equal. */
  lemma KeyAntisymmetric(a: SortKey, b: SortKey)
    requires !KeyLt(a, b) && !KeyLt(b, a)
    ensures a == b
  {
    if a != b {
      KeyLtTotal(a, b);
    }
  }

  // ---------------------------------------------------------------------
  // The sort

  /** Put `c` in front of the first item of `s` that is not smaller than it. */
  function Insert(c: Candidate, s: seq<Candidate>): (r: seq<Candidate>)
  {
    if s == [] then [c]
    else if !KeyLt(KeyOf(s[0]), KeyOf(c)) then [c] + s
    else [s[0]] + Insert(c, s[1..])
  }

  /** `sorted(s, key=file_lineno)`, as an insertion sort. */
  function SortByKey(s: seq<Candidate>): (r: seq<Candidate>)
  {
    if s == [] then [] else Insert(s[0], SortByKey(s[1..]))
  }

  lemma {:induction false} InsertPermutes(c: Candidate, s: seq<Candidate>)
    ensures multiset(Insert(c, s)) == multiset(s) + multiset{c}
  {
    if s != [] && KeyLt(KeyOf(s[0]), KeyOf(c)) {
      InsertPermutes(c, s[1..]);
      assert s == [s[0]] + s[1..];
    }
  }

  lemma {:induction false} InsertSorted(c: Candidate, s: seq<Candidate>)
    requires Sorted(s)
    ensures Sorted(Insert(c, s))
  {
    if s == [] {
    } else if !KeyLt(KeyOf(s[0]), KeyOf(c)) {
      var r := [c] + s;
      forall i, j | 0 <= i < j < |r| ensures !KeyLt(KeyOf(r[j]), KeyOf(r[i])) {
        if i == 0 && j > 1 {
          KeyLeTransitive(KeyOf(c), KeyOf(s[0]), KeyOf(s[j - 1]));
        }
      }
    } else {
      var t := Insert(c, s[1..]);
      InsertSorted(c, s[1..]);
      InsertPermutes(c, s[1..]);
      var r := [s[0]] + t;
      forall i, j | 0 <= i < j < |r| ensures !KeyLt(KeyOf(r[j]), KeyOf(r[i])) {
        if i == 0 {
          assert r[j] in multiset(s[1..]) + multiset{c};
          if r[j] != c {
            var k :| 0 <= k < |s[1..]| && s[1..][k] == r[j];
            assert s[k + 1] == r[j];
          } else {
            KeyLtIrreflexive(KeyOf(c));
            if KeyLt(KeyOf(c), KeyOf(s[0])) {
              KeyLtTransitive(KeyOf(c), KeyOf(s[0]), KeyOf(c));
            }
          }
        }
      }
    }
  }

  /** Inserting `c` adds it to the subsequence of its own key and leaves
      every other key's subsequence as it was: every item `c` passes has a
      strictly smaller key. */
  lemma {:induction false} InsertWithKey(c: Candidate, s: seq<Candidate>, k: SortKey)
    ensures WithKey(Insert(c, s), k) == (if KeyOf(c) == k then [c] else []) + WithKey(s, k)
  {
    if s == [] {
    } else if !KeyLt(KeyOf(s[0]), KeyOf(c)) {
      assert ([c] + s)[1..] == s;
    } else {
      InsertWithKey(c, s[1..], k);
      assert ([s[0]] + Insert(c, s[1..]))[1..] == Insert(c, s[1..]);
      if KeyOf(c) == k {
        KeyLtIrreflexive(k);
      }
    }
  }

  lemma {:induction false} WithKeyConcat(a: seq<Candidate>, b: seq<Candidate>, k: SortKey)
    ensures WithKey(a + b, k) == WithKey(a, k) + WithKey(b, k)
  {
    if a != [] {
      WithKeyConcat(a[1..], b, k);
      assert (a + b)[1..] == a[1..] + b;
    } else {
      assert a + b == b;
    }
  }

  /** The sort puts its items in key order. */
  lemma {:induction false} SortByKeySorted(s: seq<Candidate>)
    ensures Sorted(SortByKey(s))
  {
    if s != [] {
      SortByKeySorted(s[1..]);
      InsertSorted(s[0], SortByKey(s[1..]));
    }
  }

  /** The sort drops and duplicates nothing. */
  lemma {:induction false} SortByKeyPermutes(s: seq<Candidate>)
    ensures multiset(SortByKey(s)) == multiset(s)
  {
    if s != [] {
      SortByKeyPermutes(s[1..]);
      InsertPermutes(s[0], SortByKey(s[1..]));
      assert s == [s[0]] + s[1..];
    }
  }

  /** The sort is stable: items with equal keys keep their input order. */
  lemma {:induction false} SortByKeyStable(s: seq<Candidate>, k: SortKey)
    ensures WithKey(SortByKey(s), k) == WithKey(s, k)
  {
    if s != [] {
      SortByKeyStable(s[1..], k);
      InsertWithKey(s[0], SortByKey(s[1..]), k);
    }
  }

  lemma {:induction false} WithKeyEmpty(s: seq<Candidate>, i: nat)
    requires i < |s|
    ensures WithKey(s, KeyOf(s[i])) != []
  {
    if i > 0 {
      WithKeyEmpty(s[1..], i - 1);
    }
  }

  /** In a sorted sequence no key present is smaller than the first one. */
  lemma SortedHeadLeast(r: seq<Candidate>, k: SortKey)
    requires Sorted(r) && r != []
    requires WithKey(r, k) != []
    ensures !KeyLt(k, KeyOf(r[0]))
  {
    var x := WithKey(r, k)[0];
    assert x in r;
    var i :| 0 <= i < |r| && r[i] == x;
    if i == 0 {
      KeyLtIrreflexive(k);
    }
  }

  lemma WithKeyHead(r: seq<Candidate>)
    requires r != []
    ensures WithKey(r, KeyOf(r[0])) == [r[0]] + WithKey(r[1..], KeyOf(r[0]))
  {
  }

  lemma WithKeyTail(r: seq<Candidate>, k: SortKey)
    requires r != [] && KeyOf(r[0]) != k
    ensures WithKey(r, k) == WithKey(r[1..], k)
  {
  }

  /** Two sorted rearrangements with the same per-key subsequences start
      with the same item. */
  lemma SortedStableSameHead(r: seq<Candidate>, s: seq<Candidate>)
    requires Sorted(r) && Sorted(s) && r != [] && s != []
    requires WithKey(r, KeyOf(r[0])) == WithKey(s, KeyOf(r[0]))
    requires WithKey(r, KeyOf(s[0])) == WithKey(s, KeyOf(s[0]))
    ensures r[0] == s[0]
  {
    var kr, ks := KeyOf(r[0]), KeyOf(s[0]);
    WithKeyEmpty(s, 0);
    SortedHeadLeast(r, ks);
    WithKeyEmpty(r, 0);
    SortedHeadLeast(s, kr);
    KeyAntisymmetric(kr, ks);
    WithKeyHead(r);
    WithKeyHead(s);
    assert r[0] == WithKey(r, kr)[0];
    assert s[0] == WithKey(s, ks)[0];
  }

  /** Python's `sorted` returns a sorted and stable rearrangement of its
      input; there is only one, so the insertion sort above agrees with it. */
  lemma {:induction false} SortedStableUnique(r: seq<Candidate>, s: seq<Candidate>)
    requires Sorted(r) && Sorted(s)
    requires forall k :: WithKey(r, k) == WithKey(s, k)
    ensures r == s
  {
    if r == [] {
      if s != [] {
        WithKeyEmpty(s, 0);
      }
    } else if s == [] {
      WithKeyEmpty(r, 0);
    } else {
      assert WithKey(r, KeyOf(r[0])) == WithKey(s, KeyOf(r[0]));
      assert WithKey(r, KeyOf(s[0])) == WithKey(s, KeyOf(s[0]));
      SortedStableSameHead(r, s);
      forall k ensures WithKey(r[1..], k) == WithKey(s[1..], k) {
        assert WithKey(r, k) == WithKey(s, k);
        if KeyOf(r[0]) == k {
          WithKeyHead(r);
          WithKeyHead(s);
          assert WithKey(r[1..], k) == WithKey(r, k)[1..];
          assert WithKey(s[1..], k) == WithKey(s, k)[1..];
        } else {
          WithKeyTail(r, k);
          WithKeyTail(s, k);
        }
      }
      SortedStableUnique(r[1..], s[1..]);
    }
  }

  /** `GitVulture.all_unused_items`: every item of the four lists, in key
      order, items with equal keys in list order (functions, properties,
      variables, attributes) and within a list in the detector's order. */
  function AllUnusedItems(
    funcs: seq<Candidate>, props: seq<Candidate>, vars: seq<Candidate>, attrs: seq<Candidate>
  ): (r: seq<Candidate>)
    ensures Sorted(r)
    ensures multiset(r) == multiset(funcs + props + vars + attrs)
    ensures forall k :: WithKey(r, k) == WithKey(funcs, k) + WithKey(props, k) + WithKey(vars, k) + WithKey(attrs, k)
  {
    var all := funcs + props + vars + attrs;
    SortByKeySorted(all);
    SortByKeyPermutes(all);
    assert forall k :: WithKey(SortByKey(all), k) == WithKey(funcs, k) + WithKey(props, k) + WithKey(vars, k) + WithKey(attrs, k) by {
      forall k ensures WithKey(SortByKey(all), k) == WithKey(funcs, k) + WithKey(props, k) + WithKey(vars, k) + WithKey(attrs, k) {
        SortByKeyStable(all, k);
        WithKeyConcat(funcs + props + vars, attrs, k);
        WithKeyConcat(funcs + props, vars, k);
        WithKeyConcat(funcs, props, k);
      }
    }
    SortByKey(all)
  }

  /** Any sorted, stable arrangement of the four lists is the one
      `all_unused_items` returns: the order of the report is determined by
      the detector's lists alone. */
  lemma AllUnusedItemsUnique(
    funcs: seq<Candidate>, props: seq<Candidate>, vars: seq<Candidate>, attrs: seq<Candidate>,
    r: seq<Candidate>
  )
    requires Sorted(r)
    requires forall k :: WithKey(r, k) == WithKey(funcs + props + vars + attrs, k)
    ensures r == AllUnusedItems(funcs, props, vars, attrs)
  {
    var all := funcs + props + vars + attrs;
    SortByKeySorted(all);
    forall k ensures WithKey(r, k) == WithKey(SortByKey(all), k) {
      SortByKeyStable(all, k);
    }
    SortedStableUnique(r, SortByKey(all));
  }
}
