/** The population list the agents live in, as far as the program manipulates it: the
    removal of one agent, and the scans that remove every agent of one kind inside a box
    around the scanning agent. */
module Population {
  import opened Geometry

  /** Position of the first occurrence of a in s. */
  function FirstIndex<T(==)>(s: seq<T>, a: T): (i: nat)
    requires a in s
    ensures i < |s| && s[i] == a && a !in s[..i]
  {
    if s[0] == a then 0 else 1 + FirstIndex(s[1..], a)
  }

  /** Python's list.remove(a): drop the first occurrence of a, keep the rest in order. */
  function RemoveFirst<T(==)>(s: seq<T>, a: T): (r: seq<T>)
    requires a in s
    ensures |r| == |s| - 1
    ensures multiset(r) == multiset(s) - multiset{a}
  {
    var i := FirstIndex(s, a);
    assert s == s[..i] + [a] + s[i + 1..];
    s[..i] + s[i + 1..]
  }

  /** What a scan sees of one agent: its kind and position. */
  datatype Body<K> = Body(kind: K, x: real, y: real)

  /** An agent of kind target inside the strict box of half-width d around (x, y). */
  predicate Reached<K(==)>(b: Body<K>, target: K, x: real, y: real, d: real) {
    b.kind == target && InBox(x, y, b.x, b.y, d)
  }

  /** What a scan around (x, y) leaves of the list s, whose i-th agent looks like bs[i]:
      every agent not reached, in order. */
  function Spared<T, K(==)>(s: seq<T>, bs: seq<Body<K>>, target: K, x: real, y: real, d: real): (r: seq<T>)
    requires |bs| == |s|
    ensures |r| <= |s|
    decreases |s|
  {
    if s == [] then []
    else
      var n := |s| - 1;
      Spared(s[..n], bs[..n], target, x, y, d) + (if Reached(bs[n], target, x, y, d) then [] else [s[n]])
  }

  /** The scan taking in one more agent. */
  lemma SparedStep<T, K>(s: seq<T>, bs: seq<Body<K>>, target: K, x: real, y: real, d: real, i: nat)
    requires |bs| == |s| && i < |s|
    ensures Spared(s[..i + 1], bs[..i + 1], target, x, y, d)
      == Spared(s[..i], bs[..i], target, x, y, d) + (if Reached(bs[i], target, x, y, d) then [] else [s[i]])
  {
    assert s[..i + 1][..i] == s[..i] && bs[..i + 1][..i] == bs[..i];
  }

  /** An agent appended out of reach survives the scan, at the end. */
  lemma SparedAppend<T, K>(s: seq<T>, bs: seq<Body<K>>, a: T, b: Body<K>, target: K, x: real, y: real, d: real)
    requires |bs| == |s| && !Reached(b, target, x, y, d)
    ensures Spared(s + [a], bs + [b], target, x, y, d) == Spared(s, bs, target, x, y, d) + [a]
  {
    assert (s + [a])[..|s|] == s && (bs + [b])[..|bs|] == bs;
  }

  /** A scan only removes: whatever survives was listed, and every agent out of reach
      (in particular every agent of another kind) survives. */
  lemma {:induction false} SparedMembers<T, K>(s: seq<T>, bs: seq<Body<K>>, target: K, x: real, y: real, d: real)
    requires |bs| == |s|
    ensures forall a :: a in Spared(s, bs, target, x, y, d) ==> a in s
    ensures forall i :: 0 <= i < |s| && !Reached(bs[i], target, x, y, d) ==> s[i] in Spared(s, bs, target, x, y, d)
    decreases |s|
  {
    if s != [] {
      var n := |s| - 1;
      SparedMembers(s[..n], bs[..n], target, x, y, d);
      assert s == s[..n] + [s[n]];
      forall i | 0 <= i < n && !Reached(bs[i], target, x, y, d)
        ensures s[i] in Spared(s, bs, target, x, y, d)
      {
        assert bs[..n][i] == bs[i] && s[..n][i] == s[i];
      }
    }
  }

  /** The scan shortens the list exactly when it reaches some agent. */
  lemma {:induction false} SparedShrinks<T, K>(s: seq<T>, bs: seq<Body<K>>, target: K, x: real, y: real, d: real)
    requires |bs| == |s|
    ensures |Spared(s, bs, target, x, y, d)| < |s| <==> exists i :: 0 <= i < |s| && Reached(bs[i], target, x, y, d)
    decreases |s|
  {
    if s != [] {
      var n := |s| - 1;
      SparedShrinks(s[..n], bs[..n], target, x, y, d);
      if exists i :: 0 <= i < n && Reached(bs[..n][i], target, x, y, d) {
        var i :| 0 <= i < n && Reached(bs[..n][i], target, x, y, d);
        assert bs[..n][i] == bs[i];
      }
      if exists i :: 0 <= i < |s| && Reached(bs[i], target, x, y, d) {
        var i :| 0 <= i < |s| && Reached(bs[i], target, x, y, d);
        if i < n {
          assert bs[..n][i] == bs[i];
        }
      }
    }
  }
}
