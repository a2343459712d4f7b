/** Concatenations of parts, and where each part lies in them. */
module Layout {
  import opened Wrappers

  function Flat<T>(parts: seq<seq<T>>): seq<T> {
    if parts == [] then [] else Flat(parts[..|parts| - 1]) + parts[|parts| - 1]
  }

  /** Where part i starts; Start(parts, |parts|) is the length of the whole. */
  function Start<T>(parts: seq<seq<T>>, i: nat): nat
    requires i <= |parts|
  {
    if i == 0 then 0 else Start(parts, i - 1) + |parts[i - 1]|
  }

  lemma {:induction false} StartPrefix<T>(parts: seq<seq<T>>, n: nat, i: nat)
    requires i <= n <= |parts|
    ensures Start(parts[..n], i) == Start(parts, i)
  {
    if i > 0 { StartPrefix(parts, n, i - 1); }
  }

  lemma {:induction false} FlatLength<T>(parts: seq<seq<T>>)
    ensures |Flat(parts)| == Start(parts, |parts|)
  {
    if parts != [] {
      FlatLength(parts[..|parts| - 1]);
      StartPrefix(parts, |parts| - 1, |parts| - 1);
    }
  }

  lemma SliceFront<T>(a: seq<T>, b: seq<T>, x: nat, y: nat)
    requires x <= y <= |a|
    ensures (a + b)[x..y] == a[x..y]
  {
  }

  lemma SliceMiddle<T>(a: seq<T>, b: seq<T>, c: seq<T>, x: nat, y: nat)
    requires x <= y <= |b|
    ensures (a + b + c)[|a| + x..|a| + y] == b[x..y]
  {
  }

  /** Every part lies in the whole at its start. */
  lemma {:induction false} PartAt<T>(parts: seq<seq<T>>, i: nat)
    requires i < |parts|
    ensures Start(parts, i) + |parts[i]| <= |Flat(parts)|
    ensures Flat(parts)[Start(parts, i)..Start(parts, i) + |parts[i]|] == parts[i]
    decreases |parts|
  {
    var n := |parts| - 1;
    FlatLength(parts[..n]);
    StartPrefix(parts, n, n);
    if i < n {
      PartAt(parts[..n], i);
      StartPrefix(parts, n, i);
      SliceFront(Flat(parts[..n]), parts[n], Start(parts, i), Start(parts, i) + |parts[i]|);
    } else {
      SliceMiddle(Flat(parts[..n]), parts[n], [], 0, |parts[n]|);
      assert Flat(parts[..n]) + parts[n] + [] == Flat(parts);
    }
  }

  /** The whole holds this part at a position. */
  ghost predicate LiesAt<T>(whole: seq<T>, at: nat, part: seq<T>) {
    at + |part| <= |whole| && whole[at..at + |part|] == part
  }

  lemma LiesWithin<T>(a: seq<T>, b: seq<T>, c: seq<T>, x: nat, part: seq<T>)
    requires LiesAt(b, x, part)
    ensures LiesAt(a + b + c, |a| + x, part)
  {
    SliceMiddle(a, b, c, x, x + |part|);
  }

  /** The same when the concatenation is surrounded by other data. */
  lemma {:induction false} PartWithin<T>(a: seq<T>, parts: seq<seq<T>>, c: seq<T>, i: nat)
    requires i < |parts|
    ensures LiesAt(a + Flat(parts) + c, |a| + Start(parts, i), parts[i])
  {
    PartAt(parts, i);
    LiesWithin(a, Flat(parts), c, Start(parts, i), parts[i]);
  }

  lemma {:induction false} StartOfEqualParts<T>(parts: seq<seq<T>>, size: nat, i: nat)
    requires i <= |parts| && forall j :: 0 <= j < |parts| ==> |parts[j]| == size
    ensures Start(parts, i) == size * i
  {
    if i > 0 { StartOfEqualParts(parts, size, i - 1); }
  }

  /** All the values, unless one is missing. */
  function AllSome<T>(xs: seq<Option<T>>): Option<seq<T>> {
    if xs == [] then Some([])
    else
      var front, last := AllSome(xs[..|xs| - 1]), xs[|xs| - 1];
      if front.None? || last.None? then None else Some(front.value + [last.value])
  }

  lemma {:induction false} AllSomeIs<T>(xs: seq<Option<T>>, values: seq<T>)
    requires |xs| == |values| && forall i :: 0 <= i < |xs| ==> xs[i] == Some(values[i])
    ensures AllSome(xs) == Some(values)
  {
    if xs != [] {
      AllSomeIs(xs[..|xs| - 1], values[..|xs| - 1]);
      assert values == values[..|xs| - 1] + [values[|xs| - 1]];
    }
  }

  /** dict(zip(keys, values)): the last of equal keys wins. */
  function Zip<K, V>(keys: seq<K>, values: seq<V>): map<K, V>
    requires |keys| == |values|
  {
    if keys == [] then map[]
    else Zip(keys[..|keys| - 1], values[..|keys| - 1])[keys[|keys| - 1] := values[|keys| - 1]]
  }

  lemma {:induction false} ZipDistinct<K, V>(keys: seq<K>, values: seq<V>)
    requires |keys| == |values| && forall i, j :: 0 <= i < j < |keys| ==> keys[i] != keys[j]
    ensures forall k :: k in Zip(keys, values) <==> k in keys
    ensures forall i :: 0 <= i < |keys| ==> keys[i] in Zip(keys, values) && Zip(keys, values)[keys[i]] == values[i]
  {
    if keys != [] {
      var n := |keys| - 1;
      ZipDistinct(keys[..n], values[..n]);
      assert keys == keys[..n] + [keys[n]];
    }
  }

  lemma Regroup<T>(a: seq<T>, b: seq<T>, c: seq<T>, d: seq<T>, e: seq<T>)
    ensures a + b + c + d + e == a + (b + c + d + e)
    ensures a + b + c + d + e == a + b + (c + d + e)
    ensures a + b + c + d + e == (a + b) + c + (d + e)
    ensures a + b + c + d + e == (a + b + c) + d + e
    ensures a + b + c + d + e == (a + b + c + d) + e + []
  {
  }
}
