/** `Array.prototype.sort` for a consistent comparator: the one stable ascending order. */
module Sorting {

  /** The comparator never contradicts itself. */
  ghost predicate TotalPreorder<T(!new)>(le: (T, T) -> bool) {
    (forall x, y :: le(x, y) || le(y, x)) && (forall x, y, z :: le(x, y) && le(y, z) ==> le(x, z))
  }

  ghost predicate Sorted<T>(s: seq<T>, le: (T, T) -> bool) {
    forall i, j :: 0 <= i < j < |s| ==> le(s[i], s[j])
  }

  /** `x` after everything it does not precede. */
  function Insert<T>(s: seq<T>, x: T, le: (T, T) -> bool): (r: seq<T>)
    ensures |r| == |s| + 1
  {
    if s == [] || le(s[|s| - 1], x) then s + [x]
    else Insert(s[..|s| - 1], x, le) + [s[|s| - 1]]
  }

  function Sort<T>(s: seq<T>, le: (T, T) -> bool): (r: seq<T>)
    ensures |r| == |s|
  {
    if s == [] then [] else Insert(Sort(s[..|s| - 1], le), s[|s| - 1], le)
  }

  lemma {:induction false} InsertPermutes<T>(s: seq<T>, x: T, le: (T, T) -> bool)
    ensures multiset(Insert(s, x, le)) == multiset(s) + multiset{x}
  {
    if s != [] && !le(s[|s| - 1], x) {
      InsertPermutes(s[..|s| - 1], x, le);
      assert s == s[..|s| - 1] + [s[|s| - 1]];
    }
  }

  lemma {:induction false} SortPermutes<T>(s: seq<T>, le: (T, T) -> bool)
    ensures multiset(Sort(s, le)) == multiset(s)
  {
    if s != [] {
      SortPermutes(s[..|s| - 1], le);
      InsertPermutes(Sort(s[..|s| - 1], le), s[|s| - 1], le);
      assert s == s[..|s| - 1] + [s[|s| - 1]];
    }
  }

  lemma {:induction false} InsertSorts<T(!new)>(s: seq<T>, x: T, le: (T, T) -> bool)
    requires TotalPreorder(le) && Sorted(s, le)
    ensures Sorted(Insert(s, x, le), le)
  {
    var r := Insert(s, x, le);
    if s == [] || le(s[|s| - 1], x) {
      forall i | 0 <= i < |s| ensures le(s[i], x) {
        assert i == |s| - 1 || le(s[i], s[|s| - 1]);
      }
    } else {
      var (init, last) := (s[..|s| - 1], s[|s| - 1]);
      InsertSorts(init, x, le);
      InsertPermutes(init, x, le);
      var t := Insert(init, x, le);
      forall i | 0 <= i < |t| ensures le(t[i], last) {
        assert t[i] in multiset(t);
        assert t[i] == x || t[i] in init;
      }
    }
  }

  lemma {:induction false} SortSorts<T(!new)>(s: seq<T>, le: (T, T) -> bool)
    requires TotalPreorder(le)
    ensures Sorted(Sort(s, le), le)
  {
    if s != [] {
      SortSorts(s[..|s| - 1], le);
      InsertSorts(Sort(s[..|s| - 1], le), s[|s| - 1], le);
    }
  }

  /** `le` never puts two elements against the order `ord`; between equivalent ones it may say anything. */
  ghost predicate Respects<T(!new)>(le: (T, T) -> bool, ord: (T, T) -> bool) {
    forall x, y :: if le(x, y) then ord(x, y) else ord(y, x)
  }

  /** The comparator itself put `x` before `y`, asked one way or the other. */
  predicate PutFirst<T>(x: T, y: T, le: (T, T) -> bool) { le(x, y) || !le(y, x) }

  /** Each element of the outcome was put before the next by the comparator. A sort that compares its elements no
    * further than it needs still compares those that end up next to each other, or it could not tell them apart.
    */
  ghost predicate Vouched<T>(s: seq<T>, le: (T, T) -> bool) {
    forall i :: 0 < i < |s| ==> PutFirst(s[i - 1], s[i], le)
  }

  /** A comparator that contradicts itself only between equivalent elements still sorts by class. */
  lemma {:induction false} VouchedSorts<T(!new)>(s: seq<T>, le: (T, T) -> bool, ord: (T, T) -> bool)
    requires TotalPreorder(ord) && Respects(le, ord) && Vouched(s, le)
    ensures Sorted(s, ord)
  {
    if s != [] {
      var init := s[..|s| - 1];
      VouchedSorts(init, le, ord);
      forall i | 0 <= i < |init| ensures ord(s[i], s[|init|]) {
        assert PutFirst(s[|init| - 1], s[|init|], le);
        assert i == |init| - 1 || ord(init[i], init[|init| - 1]);
      }
    }
  }

  /** Inserting at a place both neighbours of which were compared, whether found by a walk or by bisection. */
  lemma InsertVouches<T>(s: seq<T>, k: nat, x: T, le: (T, T) -> bool)
    requires k <= |s| && Vouched(s, le)
    requires (k > 0 ==> PutFirst(s[k - 1], x, le)) && (k < |s| ==> PutFirst(x, s[k], le))
    ensures Vouched(s[..k] + [x] + s[k..], le)
  {
    hide PutFirst;
  }

  /** The walk `Insert` takes ends at such a place. */
  lemma {:induction false} InsertAtPlace<T>(s: seq<T>, x: T, le: (T, T) -> bool) returns (k: nat)
    ensures k <= |s| && Insert(s, x, le) == s[..k] + [x] + s[k..]
    ensures (k > 0 ==> le(s[k - 1], x)) && (k < |s| ==> !le(s[k], x))
  {
    if s == [] || le(s[|s| - 1], x) {
      k := |s|;
    } else {
      k := InsertAtPlace(s[..|s| - 1], x, le);
      assert s[k..] == s[..|s| - 1][k..] + [s[|s| - 1]];
    }
  }

  lemma {:induction false} SortVouches<T>(s: seq<T>, le: (T, T) -> bool)
    ensures Vouched(Sort(s, le), le)
  {
    if s != [] {
      hide Vouched;
      hide Insert;
      var (init, x) := (s[..|s| - 1], s[|s| - 1]);
      SortVouches(init, le);
      var k := InsertAtPlace(Sort(init, le), x, le);
      InsertVouches(Sort(init, le), k, x, le);
      assert Sort(s, le) == Insert(Sort(init, le), x, le);
    } else {
      assert Sort(s, le) == [];
    }
  }

  /** Merging two runs, the left one first where the comparator lets it. */
  function MergeRuns<T>(a: seq<T>, b: seq<T>, le: (T, T) -> bool): seq<T>
    decreases |a| + |b|
  {
    if a == [] then b
    else if b == [] then a
    else if le(a[0], b[0]) then [a[0]] + MergeRuns(a[1..], b, le)
    else [b[0]] + MergeRuns(a, b[1..], le)
  }

  lemma Halves<T>(s: seq<T>, k: nat)
    requires k <= |s|
    ensures multiset(s) == multiset(s[..k]) + multiset(s[k..])
  {
    assert s == s[..k] + s[k..];
  }

  lemma FirstOf<T>(s: seq<T>)
    requires s != []
    ensures multiset(s) == multiset{s[0]} + multiset(s[1..])
  {
    assert s == [s[0]] + s[1..];
  }

  lemma {:induction false} MergeStep<T>(a: seq<T>, b: seq<T>, le: (T, T) -> bool)
    requires a != [] && b != []
    ensures var m := MergeRuns(a, b, le);
            m != [] && if le(a[0], b[0]) then m[0] == a[0] && m[1..] == MergeRuns(a[1..], b, le)
                       else m[0] == b[0] && m[1..] == MergeRuns(a, b[1..], le)
  {
  }

  lemma {:induction false} MergePermutes<T>(a: seq<T>, b: seq<T>, le: (T, T) -> bool)
    ensures multiset(MergeRuns(a, b, le)) == multiset(a) + multiset(b)
    decreases |a| + |b|
  {
    if a != [] && b != [] {
      hide MergeRuns;
      MergeStep(a, b, le);
      FirstOf(MergeRuns(a, b, le));
      if le(a[0], b[0]) {
        FirstOf(a);
        MergePermutes(a[1..], b, le);
      } else {
        FirstOf(b);
        MergePermutes(a, b[1..], le);
      }
    }
  }

  lemma {:induction false} MergeVouches<T>(a: seq<T>, b: seq<T>, le: (T, T) -> bool)
    requires Vouched(a, le) && Vouched(b, le)
    ensures Vouched(MergeRuns(a, b, le), le)
    decreases |a| + |b|
  {
    if a != [] && b != [] {
      var (x, a', b') := if le(a[0], b[0]) then (a[0], a[1..], b) else (b[0], a, b[1..]);
      MergeStarts(a', b', le);
      assert a' != [] ==> PutFirst(x, a'[0], le);
      assert b' != [] ==> PutFirst(x, b'[0], le);
      assert Vouched(a', le) && Vouched(b', le);
      hide Vouched;
      hide PutFirst;
      MergeVouches(a', b', le);
      FirstVouches(x, MergeRuns(a', b', le), le);
    }
  }

  lemma {:induction false} MergeStarts<T>(a: seq<T>, b: seq<T>, le: (T, T) -> bool)
    ensures var m := MergeRuns(a, b, le);
            m != [] ==> (a != [] && m[0] == a[0]) || (b != [] && m[0] == b[0])
  {
  }

  lemma FirstVouches<T>(x: T, rest: seq<T>, le: (T, T) -> bool)
    requires Vouched(rest, le) && (rest != [] ==> PutFirst(x, rest[0], le))
    ensures Vouched([x] + rest, le)
  {
    hide PutFirst;
  }

  /** The elements equivalent to `x`, in order. */
  function Class<T>(s: seq<T>, x: T, le: (T, T) -> bool): seq<T> {
    if s == [] then []
    else Class(s[..|s| - 1], x, le) +
         if le(s[|s| - 1], x) && le(x, s[|s| - 1]) then [s[|s| - 1]] else []
  }

  lemma {:induction false} InsertStable<T(!new)>(s: seq<T>, y: T, x: T, le: (T, T) -> bool)
    requires TotalPreorder(le)
    ensures Class(Insert(s, y, le), x, le) == Class(s + [y], x, le)
  {
    assert (s + [y])[..|s|] == s;
    if s != [] && !le(s[|s| - 1], y) {
      var (init, last) := (s[..|s| - 1], s[|s| - 1]);
      InsertStable(init, y, x, le);
      assert (Insert(init, y, le) + [last])[..|s|] == Insert(init, y, le);
      assert (init + [y])[..|init|] == init;
    }
  }

  /** Stable: elements the comparator does not tell apart keep their order. */
  lemma {:induction false} SortStable<T(!new)>(s: seq<T>, x: T, le: (T, T) -> bool)
    requires TotalPreorder(le)
    ensures Class(Sort(s, le), x, le) == Class(s, x, le)
  {
    if s != [] {
      var init := s[..|s| - 1];
      SortStable(init, x, le);
      InsertStable(Sort(init, le), s[|s| - 1], x, le);
      assert (Sort(init, le) + [s[|s| - 1]])[..|init|] == Sort(init, le);
    }
  }
}
