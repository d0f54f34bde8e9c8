/**
  * Where lines start. A line ends at LF only; a CR never opens a line.
  */
module Lines {
  import opened Prelude
  import opened Utf8

  /** Offset just past each LF of `s`, counting `s[0]` as offset `base`. */
  function NewlineEnds(s: seq<byte>, base: nat): seq<nat> {
    if s == [] then []
    else (if s[0] == LF then [base + 1] else []) + NewlineEnds(s[1..], base + 1)
  }

  /** `compute_line_starts`: the full rebuild. */
  function LineStarts(text: seq<byte>): seq<nat> {
    [0] + NewlineEnds(text, 0)
  }

  ghost predicate StrictlyIncreasing(v: seq<nat>) {
    forall i, j :: 0 <= i < j < |v| ==> v[i] < v[j]
  }

  /** Each entry follows an LF. */
  lemma {:induction false} NewlineEndsSound(s: seq<byte>, base: nat, i: nat)
    requires i < |NewlineEnds(s, base)|
    ensures base < NewlineEnds(s, base)[i] <= base + |s|
    ensures s[NewlineEnds(s, base)[i] - base - 1] == LF
  {
    if s[0] != LF {
      NewlineEndsSound(s[1..], base + 1, i);
    } else if 0 < i {
      NewlineEndsSound(s[1..], base + 1, i - 1);
    }
  }

  /** Entries are in order. */
  lemma {:induction false} NewlineEndsOrdered(s: seq<byte>, base: nat, i: nat, j: nat)
    requires i < j < |NewlineEnds(s, base)|
    ensures NewlineEnds(s, base)[i] < NewlineEnds(s, base)[j]
  {
    if s[0] != LF {
      NewlineEndsOrdered(s[1..], base + 1, i, j);
    } else if 0 < i {
      NewlineEndsOrdered(s[1..], base + 1, i - 1, j - 1);
    } else {
      NewlineEndsSound(s[1..], base + 1, j - 1);
    }
  }

  lemma NewlineEndsSorted(s: seq<byte>, base: nat)
    ensures StrictlyIncreasing(NewlineEnds(s, base))
    ensures forall i :: 0 <= i < |NewlineEnds(s, base)|
                        ==> && base < NewlineEnds(s, base)[i] <= base + |s|
                            && s[NewlineEnds(s, base)[i] - base - 1] == LF
  {
    forall i | 0 <= i < |NewlineEnds(s, base)|
      ensures base < NewlineEnds(s, base)[i] <= base + |s| && s[NewlineEnds(s, base)[i] - base - 1] == LF
    {
      NewlineEndsSound(s, base, i);
    }
    forall i, j | 0 <= i < j < |NewlineEnds(s, base)|
      ensures NewlineEnds(s, base)[i] < NewlineEnds(s, base)[j]
    {
      NewlineEndsOrdered(s, base, i, j);
    }
  }

  lemma {:induction false} NewlineEndsComplete(s: seq<byte>, base: nat, k: nat)
    requires k < |s| && s[k] == LF
    ensures base + k + 1 in NewlineEnds(s, base)
  {
    if 0 < k {
      NewlineEndsComplete(s[1..], base + 1, k - 1);
    }
  }

  lemma {:induction false} NewlineEndsConcat(a: seq<byte>, b: seq<byte>, base: nat, mid: nat)
    requires mid == base + |a|
    ensures NewlineEnds(a + b, base) == NewlineEnds(a, base) + NewlineEnds(b, mid)
  {
    if a == [] {
      assert a + b == b;
    } else {
      assert (a + b)[1..] == a[1..] + b;
      NewlineEndsConcat(a[1..], b, base + 1, mid);
      Associative(if a[0] == LF then [base + 1] else [], NewlineEnds(a[1..], base + 1), NewlineEnds(b, mid));
    }
  }

  lemma {:induction false} NewlineEndsShift(s: seq<byte>, base: nat, other: nat)
    ensures |NewlineEnds(s, base)| == |NewlineEnds(s, other)|
    ensures forall i :: 0 <= i < |NewlineEnds(s, base)|
                        ==> NewlineEnds(s, base)[i] - base == NewlineEnds(s, other)[i] - other
  {
    if s != [] {
      NewlineEndsShift(s[1..], base + 1, other + 1);
    }
  }

  // ---- what a line index is, stated without computing one ----

  /** A line index lists, in order, offset 0 and every offset that follows an LF. */
  ghost predicate IsLineIndex(text: seq<byte>, v: seq<nat>) {
    && StrictlyIncreasing(v)
    && forall x :: x in v <==> x == 0 || (0 < x <= |text| && text[x - 1] == LF)
  }

  /** Two sorted lists with the same members, alike up to entry `i`, are alike there too. */
  lemma SameEntry(u: seq<nat>, v: seq<nat>, i: nat)
    requires StrictlyIncreasing(u) && StrictlyIncreasing(v) && i < |u| && i <= |v|
    requires forall k :: 0 <= k < i ==> u[k] == v[k]
    requires u[i] in v && forall k :: 0 <= k < |v| ==> v[k] in u
    ensures i < |v| && u[i] == v[i]
  {
    var j :| 0 <= j < |v| && v[j] == u[i];
    assert i <= j;
    var m :| 0 <= m < |u| && u[m] == v[i];
    assert i <= m;
  }

  lemma {:induction false} SameEntries(u: seq<nat>, v: seq<nat>, n: nat)
    requires StrictlyIncreasing(u) && StrictlyIncreasing(v) && n <= |u|
    requires forall k :: 0 <= k < |u| ==> u[k] in v
    requires forall k :: 0 <= k < |v| ==> v[k] in u
    ensures n <= |v| && forall k :: 0 <= k < n ==> u[k] == v[k]
  {
    if 0 < n {
      SameEntries(u, v, n - 1);
      SameEntry(u, v, n - 1);
    }
  }

  lemma SortedByMembers(u: seq<nat>, v: seq<nat>)
    requires StrictlyIncreasing(u) && StrictlyIncreasing(v)
    requires forall x :: x in u <==> x in v
    ensures u == v
  {
    SameEntries(u, v, |u|);
    SameEntries(v, u, |v|);
  }

  /** The rebuild computes the line index, and there is only one. */
  lemma LineStartsExact(text: seq<byte>, v: seq<nat>)
    ensures v == LineStarts(text) <==> IsLineIndex(text, v)
  {
    var ls := LineStarts(text);
    NewlineEndsSorted(text, 0);
    forall x | 0 < x <= |text| && text[x - 1] == LF
      ensures x in ls
    {
      NewlineEndsComplete(text, 0, x - 1);
    }
    assert IsLineIndex(text, ls);
    if IsLineIndex(text, v) {
      SortedByMembers(ls, v);
    }
  }

  /** Where line `k` starts, or where the text ends. */
  function Entry(lineStarts: seq<nat>, k: nat, len: nat): nat {
    if k < |lineStarts| then lineStarts[k] else len
  }

  /** `slice::partition_point(|&s| s <= bound)` */
  function PartitionPoint(v: seq<nat>, bound: nat): (k: nat)
    ensures k <= |v|
    ensures forall i :: 0 <= i < k ==> v[i] <= bound
    ensures k < |v| ==> bound < v[k]
  {
    if v == [] || bound < v[0] then 0 else 1 + PartitionPoint(v[1..], bound)
  }

  // ---- repairing an index after a splice ----

  function Replaced(text: seq<byte>, start: nat, end: nat, inserted: seq<byte>): seq<byte>
    requires start <= end <= |text|
  {
    text[..start] + inserted + text[end..]
  }

  /** First index entry past `start`. */
  function Head(ls: seq<nat>, start: nat): (k: nat)
    ensures k <= |ls|
  {
    PartitionPoint(ls, start)
  }

  /** First index entry whose newline the span `start..end` leaves in place. */
  function Tail(ls: seq<nat>, start: nat, end: nat): (k: nat)
    ensures Head(ls, start) <= k <= |ls|
  {
    Max(Head(ls, start), PartitionPoint(ls, end))
  }

  lemma {:induction false} PartitionConcat(a: seq<nat>, b: seq<nat>, bound: nat)
    requires forall i :: 0 <= i < |a| ==> a[i] <= bound
    requires b == [] || bound < b[0]
    ensures PartitionPoint(a + b, bound) == |a|
  {
    if a == [] {
      assert a + b == b;
    } else {
      assert (a + b)[1..] == a[1..] + b;
      PartitionConcat(a[1..], b, bound);
    }
  }

  lemma SpanOfParts(before: seq<nat>, inside: seq<nat>, after: seq<nat>, start: nat, end: nat)
    requires start <= end
    requires forall i :: 0 <= i < |before| ==> before[i] <= start
    requires forall i :: 0 <= i < |inside| ==> start < inside[i] <= end
    requires forall i :: 0 <= i < |after| ==> end < after[i]
    ensures Head(before + inside + after, start) == |before|
    ensures Tail(before + inside + after, start, end) == |before| + |inside|
  {
    PartitionConcat(before, inside + after, start);
    assert before + inside + after == before + (inside + after);
    PartitionConcat(before + inside, after, end);
  }

  /** The index of three pieces, piece by piece; `m` and `n` are where the last two begin. */
  lemma LineStartsOfParts(a: seq<byte>, b: seq<byte>, c: seq<byte>, m: nat, n: nat)
    requires m == |a| && n == m + |b|
    ensures LineStarts(a + b + c) == LineStarts(a) + NewlineEnds(b, m) + NewlineEnds(c, n)
  {
    var x, y, z := NewlineEnds(a, 0), NewlineEnds(b, m), NewlineEnds(c, n);
    assert NewlineEnds(a + b + c, 0) == x + y + z by {
      NewlineEndsConcat(a + b, c, 0, n);
      NewlineEndsConcat(a, b, 0, m);
    }
    assert [0] + (x + y + z) == [0] + x + y + z;
  }

  /** What a splice keeps of the index, and what it slides. */
  lemma IndexOfSpan(text: seq<byte>, start: nat, end: nat)
    requires start <= end <= |text|
    ensures LineStarts(text)[..Head(LineStarts(text), start)] == LineStarts(text[..start])
    ensures LineStarts(text)[Tail(LineStarts(text), start, end)..] == NewlineEnds(text[end..], end)
  {
    var before, inside, after :=
      LineStarts(text[..start]), NewlineEnds(text[start..end], start), NewlineEnds(text[end..], end);
    assert text == text[..start] + text[start..end] + text[end..];
    LineStartsOfParts(text[..start], text[start..end], text[end..], start, end);
    NewlineEndsSorted(text[..start], 0);
    NewlineEndsSorted(text[start..end], start);
    NewlineEndsSorted(text[end..], end);
    SpanOfParts(before, inside, after, start, end);
    CutParts(before, inside, after);
  }

  lemma CutParts<T>(a: seq<T>, b: seq<T>, c: seq<T>)
    ensures (a + b + c)[..|a|] == a
    ensures (a + b + c)[|a| + |b|..] == c
  {
  }

  /** The starts after the span slide by the change in length; none slides below zero. */
  lemma TailSlides(text: seq<byte>, start: nat, end: nat, to: nat)
    requires start <= end <= |text|
    ensures var ls, t := LineStarts(text), Tail(LineStarts(text), start, end);
            && |NewlineEnds(text[end..], to)| == |ls[t..]|
            && forall i :: 0 <= i < |ls[t..]|
                 ==> end < ls[t..][i] && NewlineEnds(text[end..], to)[i] == ls[t..][i] - end + to
  {
    IndexOfSpan(text, start, end);
    NewlineEndsShift(text[end..], end, to);
    NewlineEndsSorted(text[end..], end);
  }

  /**
    * `repaired` is what a splice makes of the index `ls`: it keeps the starts up to
    * `start`, drops those whose newline the span removed, adds one per newline
    * inserted, and slides the rest.
    */
  ghost predicate IsRepair(ls: seq<nat>, start: nat, end: nat, inserted: seq<byte>, repaired: seq<nat>)
    requires start <= end
  {
    var h, t, added := Head(ls, start), Tail(ls, start, end), NewlineEnds(inserted, start);
    && |repaired| == h + |added| + (|ls| - t)
    && repaired[..h] == ls[..h]
    && repaired[h..h + |added|] == added
    && forall i :: 0 <= i < |ls[t..]|
         ==> repaired[h + |added|..][i] == ls[t..][i] + |inserted| - (end - start)
  }

  /** The index with the swallowed starts replaced by the added ones, nothing slid yet. */
  ghost function Joined(ls: seq<nat>, start: nat, end: nat, inserted: seq<byte>): seq<nat> {
    ls[..Head(ls, start)] + NewlineEnds(inserted, start) + ls[Tail(ls, start, end)..]
  }

  /** How many entries of the joined index stay where they are. */
  ghost function Settled(ls: seq<nat>, start: nat, inserted: seq<byte>): nat {
    Head(ls, start) + |NewlineEnds(inserted, start)|
  }

  /** Entries from `from` on do not underflow when moved by `inserted - removed`. */
  ghost predicate CanSlide(v: seq<nat>, from: nat, inserted: nat, removed: nat) {
    forall i :: from <= i < |v| ==> removed <= v[i] + inserted
  }

  /** `w` is `v` with the entries from `from` on moved by `inserted - removed`. */
  ghost predicate IsSlid(v: seq<nat>, w: seq<nat>, from: nat, inserted: nat, removed: nat) {
    && |w| == |v| && from <= |v|
    && w[..from] == v[..from]
    && forall i :: from <= i < |v| ==> w[i] == v[i] + inserted - removed
  }

  /** Sliding the rest of the joined index is the repair. */
  lemma SlidIsRepair(ls: seq<nat>, start: nat, end: nat, inserted: seq<byte>, repaired: seq<nat>)
    requires start <= end
    requires IsSlid(Joined(ls, start, end, inserted), repaired, Settled(ls, start, inserted), |inserted|, end - start)
    ensures IsRepair(ls, start, end, inserted, repaired)
  {
    var joined := Joined(ls, start, end, inserted);
    var h, added := Head(ls, start), NewlineEnds(inserted, start);
    CutParts(ls[..h], added, ls[Tail(ls, start, end)..]);
    var k := h + |added|;
    assert joined[..k] == ls[..h] + added;
    assert repaired[..h] == repaired[..k][..h];
    assert repaired[h..k] == repaired[..k][h..];
  }

  /** For every span and every inserted text, the repaired index is the rebuilt one. */
  lemma RepairEqualsRebuild(text: seq<byte>, start: nat, end: nat, inserted: seq<byte>, repaired: seq<nat>)
    requires start <= end <= |text|
    requires IsRepair(LineStarts(text), start, end, inserted, repaired)
    ensures repaired == LineStarts(Replaced(text, start, end, inserted))
  {
    var ls, added := LineStarts(text), NewlineEnds(inserted, start);
    var h := Head(ls, start);
    var to := start + |inserted|;
    assert repaired[h + |added|..] == NewlineEnds(text[end..], to) by {
      TailSlides(text, start, end, to);
    }
    assert repaired[..h] == LineStarts(text[..start]) by {
      IndexOfSpan(text, start, end);
    }
    ThreeParts(repaired, h, h + |added|);
    LineStartsOfParts(text[..start], inserted, text[end..], start, to);
  }

  lemma ThreeParts<T>(s: seq<T>, i: nat, j: nat)
    requires i <= j <= |s|
    ensures s == s[..i] + s[i..j] + s[j..]
  {
  }

  lemma NoNewlineNoStarts(s: seq<byte>, base: nat)
    ensures LF in s <==> NewlineEnds(s, base) != []
  {
    NewlineEndsSorted(s, base);
    if LF in s {
      var i :| 0 <= i < |s| && s[i] == LF;
      NewlineEndsComplete(s, base, i);
    }
  }

  /** Once the swallowed starts are gone, everything after the added ones can slide. */
  lemma JoinedCanSlide(text: seq<byte>, start: nat, end: nat, inserted: seq<byte>)
    requires start <= end <= |text|
    ensures var ls := LineStarts(text);
            CanSlide(Joined(ls, start, end, inserted), Settled(ls, start, inserted), |inserted|, end - start)
  {
    TailSlides(text, start, end, start + |inserted|);
  }

  /** Sliding the rest of the joined index gives the rebuilt one. */
  lemma SlidIsRebuilt(text: seq<byte>, start: nat, end: nat, inserted: seq<byte>, repaired: seq<nat>)
    requires start <= end <= |text|
    requires var ls := LineStarts(text);
             IsSlid(Joined(ls, start, end, inserted), repaired, Settled(ls, start, inserted), |inserted|, end - start)
    ensures repaired == LineStarts(Replaced(text, start, end, inserted))
  {
    SlidIsRepair(LineStarts(text), start, end, inserted, repaired);
    RepairEqualsRebuild(text, start, end, inserted, repaired);
  }
}
