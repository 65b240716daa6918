/** Rotations of sequences, and the test for them. */
module Rotations {
  import opened Common

  function Rotate<T>(s: seq<T>, k: nat): (r: seq<T>)
    requires k <= |s|
    ensures |r| == |s|
  {
    s[k..] + s[..k]
  }

  ghost predicate IsRotation<T>(a: seq<T>, b: seq<T>) {
    exists k :: 0 <= k <= |a| && b == Rotate(a, k)
  }

  lemma RotateTwice<T>(s: seq<T>, k: nat, l: nat)
    requires k <= |s| && l <= |s|
    ensures var m := if k + l <= |s| then k + l else k + l - |s|;
            Rotate(Rotate(s, k), l) == Rotate(s, m)
  {
  }

  lemma RotationSymmetric<T>(a: seq<T>, b: seq<T>)
    requires IsRotation(a, b)
    ensures IsRotation(b, a)
  {
    var k :| 0 <= k <= |a| && b == Rotate(a, k);
    assert a == Rotate(b, |a| - k);
  }

  lemma RotationTransitive<T>(a: seq<T>, b: seq<T>, c: seq<T>)
    requires IsRotation(a, b) && IsRotation(b, c)
    ensures IsRotation(a, c)
  {
    var k :| 0 <= k <= |a| && b == Rotate(a, k);
    var l :| 0 <= l <= |b| && c == Rotate(b, l);
    RotateTwice(a, k, l);
  }

  lemma NoOtherStart<T>(a: seq<T>, b: seq<T>, starts: seq<nat>, k: nat)
    requires |a| == |b| > 0 && k <= |a|
    requires forall j :: 0 <= j < |starts| ==> starts[j] < |a| && Rotate(a, starts[j]) != b
    requires forall i :: 0 <= i < |a| && a[i] == b[0] ==> i in starts
    ensures b != Rotate(a, k)
  {
    var i := if k == |a| then 0 else k;
    assert Rotate(a, k) == Rotate(a, i) && Rotate(a, i)[0] == a[i];
    if a[i] == b[0] {
      var j :| 0 <= j < |starts| && starts[j] == i;
    }
  }

  /** Is `a` a rotation of `b`? Two empty sequences are an index error. */
  method IsRotated<T(==)>(a: seq<T>, b: seq<T>) returns (r: Option<bool>)
    ensures r.None? <==> a == [] && b == []
    ensures r.Some? ==> (r.value <==> IsRotation(a, b))
  {
    if |a| != |b| {
      return Some(false);
    }
    if b == [] {
      return None;
    }
    var starts: seq<nat> := [];
    var head := b[0];
    for i := 0 to |a|
      invariant forall j :: 0 <= j < |starts| ==> starts[j] < |a|
      invariant forall k :: 0 <= k < i && a[k] == head ==> k in starts
    {
      if a[i] == head {
        starts := starts + [i];
      }
    }
    var doubled := a + a;
    for j := 0 to |starts|
      invariant forall l :: 0 <= l < j ==> Rotate(a, starts[l]) != b
    {
      assert doubled[starts[j]..starts[j] + |a|] == Rotate(a, starts[j]);
      if doubled[starts[j]..starts[j] + |a|] == b {
        return Some(true);
      }
    }
    forall k | 0 <= k <= |a| ensures b != Rotate(a, k) {
      NoOtherStart(a, b, starts, k);
    }
    return Some(false);
  }
}
