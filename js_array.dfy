/** The JavaScript array operations the selection logic is built from, on
    sequences of record identifiers: `filter` with an `includes` test,
    `slice(0, n)`, and `Array.from(new Set(...))`. */
module JsArray {

  /** No identifier occurs twice. */
  predicate NoDup(s: seq<int>) {
    forall i, j :: 0 <= i < j < |s| ==> s[i] != s[j]
  }

  /** The identifiers occurring in `s`. */
  function Elems(s: seq<int>): set<int> {
    set x | x in s
  }

  /** `a` is obtained from `b` by deleting elements: what is kept keeps its
      relative order. */
  ghost predicate IsSubsequence(a: seq<int>, b: seq<int>)
    decreases |b|
  {
    && |a| <= |b|
    && (|| a == []
        || (a[0] == b[0] && IsSubsequence(a[1..], b[1..]))
        || IsSubsequence(a, b[1..]))
  }

  /** The elements of `s` that `excl` does not include, in their order in `s`:
      JavaScript's `filter` with a negated `includes` test. */
  function FilterOut(s: seq<int>, excl: seq<int>): (r: seq<int>)
    ensures |r| <= |s|
    ensures forall x :: x in r <==> x in s && x !in excl
    ensures NoDup(s) ==> NoDup(r)
  {
    if s == [] then []
    else
      assert s == [s[0]] + s[1..];
      var rest := FilterOut(s[1..], excl);
      if s[0] in excl then rest else [s[0]] + rest
  }

  /** Filtering keeps the order of what it keeps, and keeps every copy of it. */
  lemma {:induction false} FilterOutKeepsOrder(s: seq<int>, excl: seq<int>)
    ensures IsSubsequence(FilterOut(s, excl), s)
    ensures forall x :: x !in excl ==> multiset(FilterOut(s, excl))[x] == multiset(s)[x]
  {
    if s != [] {
      var rest := FilterOut(s[1..], excl);
      FilterOutKeepsOrder(s[1..], excl);
      assert s == [s[0]] + s[1..];
      if s[0] !in excl {
        assert ([s[0]] + rest)[1..] == rest;
      }
    }
  }

  /** JavaScript's `s.slice(0, n)`: a non-negative `n` keeps the first `n`
      elements (all of them when `n` is larger), a negative `n` drops the last
      `-n` elements. */
  function SliceFront(s: seq<int>, n: int): (r: seq<int>)
    ensures r <= s
    ensures 0 <= n ==> |r| == if n < |s| then n else |s|
    ensures n < 0 ==> |r| == if -n < |s| then |s| + n else 0
  {
    if 0 <= n then
      if n < |s| then s[..n] else s
    else
      if -n < |s| then s[..|s| + n] else []
  }

  /** What inserting the elements of `s` one after the other into a
      JavaScript `Set` that already holds `seen` adds to it, in the Set's
      insertion order: each element not in `seen`, at its first occurrence. */
  function DedupFrom(s: seq<int>, seen: set<int>): (r: seq<int>)
    ensures NoDup(r)
    ensures forall x :: x in r <==> x in s && x !in seen
  {
    if s == [] then []
    else
      var rest := DedupFrom(s[1..], if s[0] in seen then seen else seen + {s[0]});
      if s[0] in seen then rest else [s[0]] + rest
  }

  /** What the Set adds keeps the order of `s`. */
  lemma {:induction false} DedupFromKeepsOrder(s: seq<int>, seen: set<int>)
    ensures IsSubsequence(DedupFrom(s, seen), s)
  {
    if s != [] {
      var seen' := if s[0] in seen then seen else seen + {s[0]};
      var rest := DedupFrom(s[1..], seen');
      DedupFromKeepsOrder(s[1..], seen');
      if s[0] !in seen {
        assert ([s[0]] + rest)[1..] == rest;
      }
    }
  }

  /** `Array.from(new Set(s))`: `s` without repetitions, first occurrences kept. */
  function Dedup(s: seq<int>): (r: seq<int>)
    ensures NoDup(r)
    ensures forall x :: x in r <==> x in s
  {
    DedupFrom(s, {})
  }

  /** Filtering distributes over concatenation. */
  lemma {:induction false} FilterOutAppend(a: seq<int>, b: seq<int>, excl: seq<int>)
    ensures FilterOut(a + b, excl) == FilterOut(a, excl) + FilterOut(b, excl)
  {
    if a != [] {
      assert (a + b)[0] == a[0];
      assert (a + b)[1..] == a[1..] + b;
      FilterOutAppend(a[1..], b, excl);
    } else {
      assert a + b == b;
    }
  }

  /** Filtering out identifiers that do not occur leaves the sequence as it is. */
  lemma {:induction false} FilterOutKeepsAll(s: seq<int>, excl: seq<int>)
    requires forall x :: x in s ==> x !in excl
    ensures FilterOut(s, excl) == s
  {
    if s != [] {
      var x := s[0];
      assert x in s;
      FilterOutKeepsAll(s[1..], excl);
      assert s == [s[0]] + s[1..];
    }
  }

  /** Filtering out every identifier that occurs leaves nothing. */
  lemma {:induction false} FilterOutDropsAll(s: seq<int>, excl: seq<int>)
    requires forall x :: x in s ==> x in excl
    ensures FilterOut(s, excl) == []
  {
    if s != [] {
      var x := s[0];
      assert x in s;
      FilterOutDropsAll(s[1..], excl);
    }
  }

  /** The Set adds the head of a sequence first, unless it already holds it. */
  lemma DedupFromCons(x: int, t: seq<int>, seen: set<int>)
    ensures DedupFrom([x] + t, seen)
         == (if x in seen then [] else [x]) + DedupFrom(t, if x in seen then seen else seen + {x})
  {
    assert ([x] + t)[0] == x && ([x] + t)[1..] == t;
  }

  /** Adding `a` to the Set and then `b` is adding `a + b`: the elements of
      `a` first, then those of `b` that `a` did not already add. */
  lemma {:induction false} DedupFromAppend(a: seq<int>, b: seq<int>, seen: set<int>)
    ensures DedupFrom(a + b, seen) == DedupFrom(a, seen) + DedupFrom(b, seen + Elems(a))
  {
    if a == [] {
      assert a + b == b;
      assert seen + Elems(a) == seen;
    } else {
      var x, a' := a[0], a[1..];
      var head := if x in seen then [] else [x];
      var seen' := if x in seen then seen else seen + {x};
      assert a == [x] + a';
      assert a + b == [x] + (a' + b);
      assert seen' + Elems(a') == seen + Elems(a) by {
        assert Elems(a) == {x} + Elems(a');
      }
      calc {
        DedupFrom(a + b, seen);
        { DedupFromCons(x, a' + b, seen); }
        head + DedupFrom(a' + b, seen');
        { DedupFromAppend(a', b, seen'); }
        head + (DedupFrom(a', seen') + DedupFrom(b, seen + Elems(a)));
        (head + DedupFrom(a', seen')) + DedupFrom(b, seen + Elems(a));
        { DedupFromCons(x, a', seen); }
        DedupFrom(a, seen) + DedupFrom(b, seen + Elems(a));
      }
    }
  }

  /** A Set that already holds every element of `s` gains nothing from it. */
  lemma {:induction false} DedupFromAllSeen(s: seq<int>, seen: set<int>)
    requires forall x :: x in s ==> x in seen
    ensures DedupFrom(s, seen) == []
  {
    if s != [] {
      var x := s[0];
      assert x in s;
      DedupFromAllSeen(s[1..], seen);
    }
  }

  /** On a sequence without repetitions the Set drops only what it already
      held, so adding `s` is filtering `s` by whatever agrees with `seen` on
      the elements of `s`. */
  lemma {:induction false} DedupFromDistinct(s: seq<int>, seen: set<int>, excl: seq<int>)
    requires NoDup(s)
    requires forall x :: x in s ==> (x in seen <==> x in excl)
    ensures DedupFrom(s, seen) == FilterOut(s, excl)
  {
    if s != [] {
      assert s == [s[0]] + s[1..];
      assert forall x :: x in s[1..] ==> x != s[0] by {
        forall x | x in s[1..] ensures x != s[0] {
          var k :| 0 <= k < |s[1..]| && s[1..][k] == x;
          assert s[k + 1] == x;
        }
      }
      var seen' := if s[0] in seen then seen else seen + {s[0]};
      DedupFromDistinct(s[1..], seen', excl);
    }
  }

  /** A sequence without repetitions is its own deduplication. */
  lemma DedupOfDistinct(s: seq<int>)
    requires NoDup(s)
    ensures Dedup(s) == s
  {
    DedupFromDistinct(s, {}, []);
    FilterOutKeepsAll(s, []);
  }

  /** Every prefix of a subsequence of `b` is a subsequence of `b`. */
  lemma {:induction false} PrefixIsSubsequence(a: seq<int>, b: seq<int>, k: nat)
    requires k <= |a|
    requires IsSubsequence(a, b)
    ensures IsSubsequence(a[..k], b)
    decreases |b|
  {
    if k > 0 {
      if a[0] == b[0] && IsSubsequence(a[1..], b[1..]) {
        PrefixIsSubsequence(a[1..], b[1..], k - 1);
        assert a[..k][1..] == a[1..][..k - 1];
      } else {
        PrefixIsSubsequence(a, b[1..], k);
      }
    }
  }

  /** Appending identifiers that are distinct and new keeps a sequence free
      of repetitions. */
  lemma AppendNoDup(a: seq<int>, b: seq<int>)
    requires forall x :: x in b ==> x !in a
    ensures NoDup(a) && NoDup(b) ==> NoDup(a + b)
  {
    if NoDup(a) && NoDup(b) {
      forall i, j | 0 <= i < j < |a + b| ensures (a + b)[i] != (a + b)[j] {
        if j >= |a| && i < |a| {
          var y := b[j - |a|];
          assert y in b;
          assert (a + b)[j] == y;
        }
      }
    }
  }
}
