/** Sequence helpers standing in for the PHP array functions the analyzer calls. */
module Lists {

  predicate NoDuplicates<T(==)>(xs: seq<T>)
  {
    forall i, j :: 0 <= i < j < |xs| ==> xs[i] != xs[j]
  }

  /** Position of the first occurrence of `x`. */
  function FirstIndex<T(==)>(xs: seq<T>, x: T): (i: nat)
    requires x in xs
    ensures i < |xs| && xs[i] == x && x !in xs[..i]
  {
    if xs[0] == x then 0
    else
      var i := 1 + FirstIndex(xs[1..], x);
      assert xs[..i] == [xs[0]] + xs[1..][..i - 1];
      i
  }

  /** Any position before which `x` does not occur is the first one. */
  lemma FirstIndexUnique<T>(xs: seq<T>, x: T, i: nat)
    requires i < |xs| && xs[i] == x && x !in xs[..i]
    ensures FirstIndex(xs, x) == i
  {
    var j := FirstIndex(xs, x);
    assert forall k :: 0 <= k < i ==> xs[..i][k] != x;
    assert forall k :: 0 <= k < j ==> xs[..j][k] != x;
  }

  lemma FirstIndexAppend<T>(xs: seq<T>, ys: seq<T>, x: T)
    requires x in xs
    ensures x in xs + ys && FirstIndex(xs + ys, x) == FirstIndex(xs, x)
  {
    var i := FirstIndex(xs, x);
    assert (xs + ys)[..i] == xs[..i];
    FirstIndexUnique(xs + ys, x, i);
  }

  /** Position of the last occurrence of `x`: where PHP's `array_flip` sends `x`. */
  function LastIndex<T(==)>(xs: seq<T>, x: T): (i: nat)
    requires x in xs
    ensures i < |xs| && xs[i] == x && x !in xs[i + 1..]
  {
    if xs[|xs| - 1] == x then |xs| - 1
    else
      var i := LastIndex(xs[..|xs| - 1], x);
      assert xs[i + 1..] == xs[..|xs| - 1][i + 1..] + [xs[|xs| - 1]];
      i
  }

  /**
   * PHP's `array_unique` as `implode` then reads it: each distinct element
   * once, at its first occurrence, in order.
   */
  function Dedup<T(==, !new)>(xs: seq<T>): (r: seq<T>)
    ensures forall x :: x in r <==> x in xs
    ensures NoDuplicates(r)
  {
    if xs == [] then []
    else
      var init, last := xs[..|xs| - 1], xs[|xs| - 1];
      assert xs == init + [last];
      var d := Dedup(init);
      if last in d then d else d + [last]
  }

  /** Dedup keeps the elements in the order of their first occurrence. */
  lemma {:induction false} DedupOrder<T(!new)>(xs: seq<T>)
    ensures forall i, j :: 0 <= i < j < |Dedup(xs)| ==> FirstIndex(xs, Dedup(xs)[i]) < FirstIndex(xs, Dedup(xs)[j])
  {
    if xs != [] {
      var init, last := xs[..|xs| - 1], xs[|xs| - 1];
      assert xs == init + [last];
      var d := Dedup(init);
      DedupOrder(init);
      forall x | x in d
        ensures FirstIndex(xs, x) == FirstIndex(init, x)
      {
        FirstIndexAppend(init, [last], x);
      }
      var r := Dedup(xs);
      assert r == if last in d then d else d + [last];
      forall i, j | 0 <= i < j < |r|
        ensures FirstIndex(xs, r[i]) < FirstIndex(xs, r[j])
      {
        assert r[i] == d[i] && d[i] in d;
        assert FirstIndex(xs, r[i]) == FirstIndex(init, d[i]);
        if j < |d| {
          assert r[j] == d[j] && d[j] in d;
          assert FirstIndex(xs, r[j]) == FirstIndex(init, d[j]);
          assert FirstIndex(init, d[i]) < FirstIndex(init, d[j]);
        } else {
          assert r[j] == last;
          FirstIndexUnique(xs, last, |xs| - 1);
          assert FirstIndex(init, d[i]) < |init|;
        }
      }
    }
  }

  /** The total length of the strings of `xs`. */
  function TotalLength(xs: seq<string>): nat
  {
    if xs == [] then 0 else TotalLength(xs[..|xs| - 1]) + |xs[|xs| - 1]|
  }

  /**
   * PHP's `implode(sep, xs)`: empty for no elements, the element itself for
   * one; otherwise it starts with the first element, ends with the last and
   * is exactly as long as the elements and the separators between them.
   * JoinAt places every element.
   */
  function Join(sep: string, xs: seq<string>): (r: string)
    ensures xs == [] ==> r == ""
    ensures |xs| == 1 ==> r == xs[0]
    ensures xs != [] ==> |r| == TotalLength(xs) + (|xs| - 1) * |sep|
    ensures xs != [] ==> |xs[0]| <= |r| && r[..|xs[0]|] == xs[0]
    ensures xs != [] ==> |xs[|xs| - 1]| <= |r| && r[|r| - |xs[|xs| - 1]|..] == xs[|xs| - 1]
  {
    if xs == [] then ""
    else if |xs| == 1 then
      assert xs[..0] == [];
      xs[0]
    else
      var init, last := xs[..|xs| - 1], xs[|xs| - 1];
      var j := Join(sep, init);
      JoinStep(j, sep, last, init[0], TotalLength(init), |init|);
      j + sep + last
  }

  /** What one more element does to the joined string. */
  lemma JoinStep(j: string, sep: string, last: string, first: string, total: nat, n: nat)
    requires n >= 1 && |j| == total + (n - 1) * |sep|
    requires |first| <= |j| && j[..|first|] == first
    ensures |j + sep + last| == total + |last| + n * |sep|
    ensures (j + sep + last)[..|first|] == first
    ensures (j + sep + last)[|j + sep + last| - |last|..] == last
  {
    assert (n - 1) * |sep| + |sep| == n * |sep|;
    assert (j + sep + last)[..|first|] == j[..|first|];
  }

  /** Where `implode` writes the `i`-th element: after the earlier elements and one separator each. */
  function Offset(sep: string, xs: seq<string>, i: nat): nat
    requires i <= |xs|
  {
    TotalLength(xs[..i]) + i * |sep|
  }

  /**
   * `implode(sep, xs)` holds the `i`-th element at its offset, followed by
   * a separator unless it is the last one.
   */
  lemma {:induction false} JoinAt(sep: string, xs: seq<string>, i: nat)
    requires i < |xs|
    ensures Offset(sep, xs, i) + |xs[i]| <= |Join(sep, xs)|
    ensures Join(sep, xs)[Offset(sep, xs, i)..Offset(sep, xs, i) + |xs[i]|] == xs[i]
    ensures i + 1 < |xs| ==>
      Offset(sep, xs, i) + |xs[i]| + |sep| <= |Join(sep, xs)| &&
      Join(sep, xs)[Offset(sep, xs, i) + |xs[i]|..Offset(sep, xs, i) + |xs[i]| + |sep|] == sep
  {
    if i == |xs| - 1 {
      JoinAtLast(sep, xs, i);
    } else {
      JoinAt(sep, xs[..|xs| - 1], i);
      JoinAtInit(sep, xs, i);
    }
  }

  /** The last element ends the join. */
  lemma JoinAtLast(sep: string, xs: seq<string>, i: nat)
    requires i == |xs| - 1
    ensures Offset(sep, xs, i) + |xs[i]| == |Join(sep, xs)|
    ensures Join(sep, xs)[Offset(sep, xs, i)..Offset(sep, xs, i) + |xs[i]|] == xs[i]
  {
    assert xs[..i] == xs[..|xs| - 1];
    if i > 0 {
      assert (i - 1) * |sep| + |sep| == i * |sep|;
    }
  }

  /** An earlier element keeps its place when one more element is joined. */
  lemma JoinAtInit(sep: string, xs: seq<string>, i: nat)
    requires i + 1 < |xs|
    requires var init := xs[..|xs| - 1];
      && Offset(sep, init, i) + |xs[i]| <= |Join(sep, init)|
      && Join(sep, init)[Offset(sep, init, i)..Offset(sep, init, i) + |xs[i]|] == xs[i]
      && (i + 1 < |init| ==>
        Offset(sep, init, i) + |xs[i]| + |sep| <= |Join(sep, init)| &&
        Join(sep, init)[Offset(sep, init, i) + |xs[i]|..Offset(sep, init, i) + |xs[i]| + |sep|] == sep)
    ensures Offset(sep, xs, i) + |xs[i]| + |sep| <= |Join(sep, xs)|
    ensures Join(sep, xs)[Offset(sep, xs, i)..Offset(sep, xs, i) + |xs[i]|] == xs[i]
    ensures Join(sep, xs)[Offset(sep, xs, i) + |xs[i]|..Offset(sep, xs, i) + |xs[i]| + |sep|] == sep
  {
    var init := xs[..|xs| - 1];
    if i + 1 == |init| {
      JoinAtLast(sep, init, i);
    }
    OffsetInit(sep, xs, i);
    JoinSnoc(sep, xs);
    PlaceKept(Join(sep, init), sep, xs[|xs| - 1], xs[i], Offset(sep, init, i));
  }

  lemma OffsetInit(sep: string, xs: seq<string>, i: nat)
    requires i < |xs|
    ensures Offset(sep, xs, i) == Offset(sep, xs[..|xs| - 1], i)
  {
    assert xs[..i] == xs[..|xs| - 1][..i];
  }

  lemma JoinSnoc(sep: string, xs: seq<string>)
    requires |xs| >= 2
    ensures Join(sep, xs) == Join(sep, xs[..|xs| - 1]) + sep + xs[|xs| - 1]
  {
  }

  /** A string followed by a separator inside `j` keeps both when a separator and one more string are appended. */
  lemma PlaceKept(j: string, sep: string, last: string, x: string, o: nat)
    requires o + |x| <= |j| && j[o..o + |x|] == x
    requires o + |x| == |j| || (o + |x| + |sep| <= |j| && j[o + |x|..o + |x| + |sep|] == sep)
    ensures o + |x| + |sep| <= |j + sep + last|
    ensures (j + sep + last)[o..o + |x|] == x
    ensures (j + sep + last)[o + |x|..o + |x| + |sep|] == sep
  {
    assert (j + sep + last)[o..o + |x|] == j[o..o + |x|];
    if o + |x| < |j| {
      assert (j + sep + last)[o + |x|..o + |x| + |sep|] == j[o + |x|..o + |x| + |sep|];
    } else {
      assert (j + sep + last)[|j|..|j| + |sep|] == sep;
    }
  }

  /** `x` occurs in `s` starting at position `o`. */
  predicate OccursAt(s: string, x: string, o: nat)
  {
    o + |x| <= |s| && s[o..o + |x|] == x
  }

  /** `x` occurs in `s` as a run of consecutive characters. */
  predicate Contains(s: string, x: string)
  {
    exists o: nat :: o <= |s| && OccursAt(s, x, o)
  }

  /** Every element of `xs` occurs in `implode(sep, xs)`. */
  lemma JoinContains(sep: string, xs: seq<string>, x: string)
    requires x in xs
    ensures Contains(Join(sep, xs), x)
  {
    var i := FirstIndex(xs, x);
    JoinAt(sep, xs, i);
    assert OccursAt(Join(sep, xs), x, Offset(sep, xs, i));
  }

  /** JoinAt's element, for a join that follows a fixed prefix `p`. */
  lemma JoinElementAfter(p: string, sep: string, xs: seq<string>, i: nat)
    requires i < |xs|
    ensures |p| + Offset(sep, xs, i) + |xs[i]| <= |p + Join(sep, xs)|
    ensures (p + Join(sep, xs))[|p| + Offset(sep, xs, i)..|p| + Offset(sep, xs, i) + |xs[i]|] == xs[i]
  {
    var j, o := Join(sep, xs), Offset(sep, xs, i);
    assert o + |xs[i]| <= |j| && j[o..o + |xs[i]|] == xs[i] by {
      JoinAt(sep, xs, i);
    }
    PlaceAfterPrefix(p, j, xs[i], sep, o, false);
  }

  /** JoinAt's separator, for a join that follows a fixed prefix `p`. */
  lemma JoinSeparatorAfter(p: string, sep: string, xs: seq<string>, i: nat)
    requires i + 1 < |xs|
    ensures |p| + Offset(sep, xs, i) + |xs[i]| + |sep| <= |p + Join(sep, xs)|
    ensures (p + Join(sep, xs))[|p| + Offset(sep, xs, i) + |xs[i]|..|p| + Offset(sep, xs, i) + |xs[i]| + |sep|] == sep
  {
    var j, o := Join(sep, xs), Offset(sep, xs, i);
    assert o + |xs[i]| <= |j| && j[o..o + |xs[i]|] == xs[i] &&
      o + |xs[i]| + |sep| <= |j| && j[o + |xs[i]|..o + |xs[i]| + |sep|] == sep by {
      JoinAt(sep, xs, i);
    }
    PlaceAfterPrefix(p, j, xs[i], sep, o, true);
  }

  /** A string `x` at offset `o` of `j`, perhaps followed by `sep`, is found shifted by `|p|` in `p + j`. */
  lemma PlaceAfterPrefix(p: string, j: string, x: string, sep: string, o: nat, followed: bool)
    requires o + |x| <= |j| && j[o..o + |x|] == x
    requires followed ==> o + |x| + |sep| <= |j| && j[o + |x|..o + |x| + |sep|] == sep
    ensures |p| + o + |x| <= |p + j|
    ensures (p + j)[|p| + o..|p| + o + |x|] == x
    ensures followed ==>
      |p| + o + |x| + |sep| <= |p + j| && (p + j)[|p| + o + |x|..|p| + o + |x| + |sep|] == sep
  {
    assert (p + j)[|p| + o..|p| + o + |x|] == j[o..o + |x|];
    if followed {
      assert (p + j)[|p| + o + |x|..|p| + o + |x| + |sep|] == j[o + |x|..o + |x| + |sep|];
    }
  }
}
