/** List helpers: flattening a list of lists, as the collectors do when they
    append the rows of one page after those of the previous pages, and Python's
    `xs[:n]`. */
module Lists {

  function Flatten<T>(xss: seq<seq<T>>): (r: seq<T>)
  {
    if xss == [] then [] else xss[0] + Flatten(xss[1..])
  }

  lemma {:induction false} FlattenConcat<T>(a: seq<seq<T>>, b: seq<seq<T>>)
    ensures Flatten(a + b) == Flatten(a) + Flatten(b)
  {
    if a == [] {
      assert a + b == b;
    } else {
      assert (a + b)[0] == a[0] && (a + b)[1..] == a[1..] + b;
      FlattenConcat(a[1..], b);
    }
  }

  lemma FlattenSnoc<T>(a: seq<seq<T>>, x: seq<T>)
    ensures Flatten(a + [x]) == Flatten(a) + x
  {
    FlattenConcat(a, [x]);
    assert Flatten([x]) == x + Flatten([x][1..]);
    assert x + [] == x;
  }

  /** Flattening lists that all have `m` elements. */
  lemma {:induction false} FlattenUniform<T>(xss: seq<seq<T>>, m: nat)
    requires forall i :: 0 <= i < |xss| ==> |xss[i]| == m
    ensures |Flatten(xss)| == |xss| * m
  {
    if xss != [] {
      FlattenUniform(xss[1..], m);
      assert |xss[0]| == m;
    }
  }

  /** An element of the flattened list comes from one of the lists. */
  lemma {:induction false} FlattenMember<T>(xss: seq<seq<T>>, k: int) returns (i: nat, j: nat)
    requires 0 <= k < |Flatten(xss)|
    ensures i < |xss| && j < |xss[i]| && Flatten(xss)[k] == xss[i][j]
  {
    if k < |xss[0]| {
      i, j := 0, k;
    } else {
      var i', j' := FlattenMember(xss[1..], k - |xss[0]|);
      i, j := i' + 1, j';
    }
  }

  /** The first `n` elements, or all of them when there are fewer (`xs[:n]`). */
  function Take<T>(s: seq<T>, n: nat): (r: seq<T>)
    ensures |r| == if |s| < n then |s| else n
    ensures r == s[..|r|]
  {
    if |s| <= n then s else s[..n]
  }

  /** A list that already holds `n` elements of a longer one is what `xs[:n]` keeps of it. */
  lemma TakeOfExtension<T>(a: seq<T>, b: seq<T>, n: nat)
    requires a <= b && |a| == n
    ensures Take(b, n) == a
  {
  }

  /** Moving the first element of `b` to the end of `a`. */
  lemma MoveFirst<T>(a: seq<T>, b: seq<T>)
    requires b != []
    ensures (a + [b[0]]) + b[1..] == a + b
  {
    assert [b[0]] + b[1..] == b;
  }
}
