/** Generic sequence operations with the semantics of JavaScript's
    Array.prototype.filter, Array.prototype.join, String.prototype.split with a
    one-character separator, and Array.prototype.slice. */
module Seqs {

  /** `r` is what remains of `s` after deleting some of its elements: the kept
      elements appear in `r` in the order they have in `s`. */
  ghost predicate IsSubsequence<T>(r: seq<T>, s: seq<T>)
    decreases |s|
  {
    r == [] ||
    (s != [] &&
      (IsSubsequence(r, s[..|s| - 1]) ||
       (r[|r| - 1] == s[|s| - 1] && IsSubsequence(r[..|r| - 1], s[..|s| - 1]))))
  }

  /** `s.filter((x, i) => keep(x, i))`: the callback sees each element and its index. */
  function Filter<T>(s: seq<T>, keep: (T, nat) -> bool): (r: seq<T>)
    ensures |r| <= |s|
    decreases |s|
  {
    if s == [] then []
    else
      var n := |s| - 1;
      var front := Filter(s[..n], keep);
      if keep(s[n], n) then front + [s[n]] else front
  }

  /** The filter only deletes elements: what it keeps stays in input order. */
  lemma {:induction false} FilterIsSubsequence<T>(s: seq<T>, keep: (T, nat) -> bool)
    ensures IsSubsequence(Filter(s, keep), s)
    decreases |s|
  {
    if s != [] {
      var n := |s| - 1;
      var front := Filter(s[..n], keep);
      FilterIsSubsequence(s[..n], keep);
      if keep(s[n], n) {
        assert (front + [s[n]])[..|front|] == front;
      }
    }
  }

  /** An element is kept exactly when it occurs at some index where the callback accepts it. */
  lemma {:induction false} FilterMembers<T>(s: seq<T>, keep: (T, nat) -> bool)
    ensures forall x :: x in Filter(s, keep) <==> exists i :: 0 <= i < |s| && s[i] == x && keep(x, i)
    decreases |s|
  {
    if s != [] {
      var n := |s| - 1;
      FilterMembers(s[..n], keep);
      forall x
        ensures x in Filter(s, keep) <==> exists i :: 0 <= i < |s| && s[i] == x && keep(x, i)
      {
        if x in Filter(s, keep) {
          if x in Filter(s[..n], keep) {
            var i :| 0 <= i < n && s[..n][i] == x && keep(x, i);
            assert s[i] == x;
          } else {
            assert s[n] == x && keep(x, n);
          }
        }
        if exists i :: 0 <= i < |s| && s[i] == x && keep(x, i) {
          var i :| 0 <= i < |s| && s[i] == x && keep(x, i);
          if i < n {
            assert s[..n][i] == x;
          }
        }
      }
    }
  }

  /** With a callback that ignores the index, the filter keeps every occurrence of
      an accepted element and none of a rejected one: duplicates are not merged. */
  lemma {:induction false} FilterMultiset<T>(s: seq<T>, keep: (T, nat) -> bool, accepts: T -> bool)
    requires forall x, i :: keep(x, i) == accepts(x)
    ensures forall x :: multiset(Filter(s, keep))[x] == if accepts(x) then multiset(s)[x] else 0
    decreases |s|
  {
    if s != [] {
      var n := |s| - 1;
      FilterMultiset(s[..n], keep, accepts);
      assert s == s[..n] + [s[n]];
    }
  }

  /** When the callback accepts every element, the filter returns its input unchanged. */
  lemma {:induction false} FilterKeepsAll<T>(s: seq<T>, keep: (T, nat) -> bool)
    requires forall i :: 0 <= i < |s| ==> keep(s[i], i)
    ensures Filter(s, keep) == s
    decreases |s|
  {
    if s != [] {
      var n := |s| - 1;
      FilterKeepsAll(s[..n], keep);
      assert s[..n] + [s[n]] == s;
    }
  }

  /** When the callback rejects every element, the filter returns nothing. */
  lemma {:induction false} FilterDropsAll<T>(s: seq<T>, keep: (T, nat) -> bool)
    requires forall i :: 0 <= i < |s| ==> !keep(s[i], i)
    ensures Filter(s, keep) == []
    decreases |s|
  {
    if s != [] {
      FilterDropsAll(s[..|s| - 1], keep);
    }
  }

  /** `parts.join(sep)`: no separator before the first part or after the last. */
  function Join<T>(parts: seq<seq<T>>, sep: seq<T>): seq<T>
    decreases |parts|
  {
    if parts == [] then []
    else if |parts| == 1 then parts[0]
    else parts[0] + sep + Join(parts[1..], sep)
  }

  /** Index of the first occurrence of `x` in `s`, or `|s|` when there is none. */
  function IndexOf<T(==)>(s: seq<T>, x: T): (i: nat)
    ensures i <= |s|
    ensures i < |s| ==> s[i] == x
    ensures forall j :: 0 <= j < i ==> s[j] != x
    decreases |s|
  {
    if s == [] then 0
    else if s[0] == x then 0
    else 1 + IndexOf(s[1..], x)
  }

  /** `s.split(sep)` for a one-element separator: the pieces between occurrences,
      empty pieces included, and `[s]` when `sep` does not occur. */
  function SplitOn<T(==)>(s: seq<T>, sep: T): (pieces: seq<seq<T>>)
    ensures |pieces| >= 1
    ensures forall k :: 0 <= k < |pieces| ==> sep !in pieces[k]
    decreases |s|
  {
    var i := IndexOf(s, sep);
    if i == |s| then [s]
    else [s[..i]] + SplitOn(s[i + 1..], sep)
  }

  /** Joining the pieces of a split with the separator gives back the original. */
  lemma {:induction false} JoinSplit<T>(s: seq<T>, sep: T)
    ensures Join(SplitOn(s, sep), [sep]) == s
    decreases |s|
  {
    var i := IndexOf(s, sep);
    if i < |s| {
      var rest := SplitOn(s[i + 1..], sep);
      JoinSplit(s[i + 1..], sep);
      assert SplitOn(s, sep) == [s[..i]] + rest;
      assert ([s[..i]] + rest)[1..] == rest;
      assert s == s[..i] + [sep] + s[i + 1..];
    }
  }

  /** Splitting a join gives back the parts, provided there is at least one part
      and no part contains the separator. */
  lemma {:induction false} SplitJoin<T>(parts: seq<seq<T>>, sep: T)
    requires parts != []
    requires forall k :: 0 <= k < |parts| ==> sep !in parts[k]
    ensures SplitOn(Join(parts, [sep]), sep) == parts
    decreases |parts|
  {
    if |parts| > 1 {
      var head, tail := parts[0], Join(parts[1..], [sep]);
      var s := head + [sep] + tail;
      assert Join(parts, [sep]) == s;
      var i := IndexOf(s, sep);
      assert s[|head|] == sep;
      assert s[..i] == head;
      assert s[i + 1..] == tail;
      SplitJoin(parts[1..], sep);
      assert [head] + parts[1..] == parts;
    }
  }

  /** Position that Array.prototype.slice derives from an argument: a negative
      one counts back from the end, and the result is clamped into [0, len]. */
  function SliceBound(x: int, len: nat): (b: nat)
    ensures b <= len
  {
    if x < 0 then (if len + x < 0 then 0 else len + x)
    else if x < len then x else len
  }

  /** `s.slice(start, end)`: never fails, whatever the arguments. */
  function Slice<T>(s: seq<T>, start: int, end: int): (r: seq<T>)
    ensures |r| <= |s|
    ensures 0 <= start <= end <= |s| ==> r == s[start..end]
  {
    var from, to := SliceBound(start, |s|), SliceBound(end, |s|);
    if from < to then s[from..to] else []
  }
}
