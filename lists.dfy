/** The java.util.List operations the core relies on, over Dafny sequences. */
module Lists {
  import opened Wrappers

  /** List.indexOf: the position of the first `x`, or None where Java returns -1. */
  function IndexOf<T(==)>(s: seq<T>, x: T): (r: Option<nat>)
    ensures r.Some? ==> r.value < |s| && s[r.value] == x && x !in s[..r.value]
    ensures r.None? <==> x !in s
  {
    IndexFrom(s, x, 0)
  }

  /** The scan behind IndexOf, resumed at position `i` with no `x` before it. */
  function IndexFrom<T(==)>(s: seq<T>, x: T, i: nat): (r: Option<nat>)
    requires i <= |s| && x !in s[..i]
    ensures r.Some? ==> i <= r.value < |s| && s[r.value] == x && x !in s[..r.value]
    ensures r.None? <==> x !in s
    decreases |s| - i
  {
    if i == |s| then
      assert s[..i] == s;
      None
    else if s[i] == x then Some(i)
    else
      assert s[..i + 1] == s[..i] + [s[i]];
      IndexFrom(s, x, i + 1)
  }

  /** List.remove(Object): drops the first `x`, if there is one. */
  function RemoveFirst<T(==)>(s: seq<T>, x: T): (r: seq<T>)
    ensures x in s ==> |r| == |s| - 1
    ensures x !in s ==> r == s
    ensures forall y :: y in r ==> y in s
    ensures forall y :: y in s && y != x ==> y in r
    ensures x in s ==> exists i :: 0 <= i < |s| && s[i] == x && x !in s[..i] && r == s[..i] + s[i + 1..]
  {
    match IndexOf(s, x)
    case None => s
    case Some(i) =>
      assert forall y :: y in s && y != x ==> y in s[..i] || y in s[i + 1..] by {
        assert s == s[..i] + [x] + s[i + 1..];
      }
      s[..i] + s[i + 1..]
  }

  ghost predicate NoDuplicates<T>(s: seq<T>)
  {
    forall i, j :: 0 <= i < j < |s| ==> s[i] != s[j]
  }

  lemma RemoveFirstKeepsDistinct<T>(s: seq<T>, x: T)
    requires NoDuplicates(s)
    ensures NoDuplicates(RemoveFirst(s, x)) && x !in RemoveFirst(s, x)
  {
    match IndexOf(s, x)
    case None =>
    case Some(i) =>
      var r := s[..i] + s[i + 1..];
      forall a, b | 0 <= a < b < |r| ensures r[a] != r[b] {
        var a' := if a < i then a else a + 1;
        var b' := if b < i then b else b + 1;
        assert r[a] == s[a'] && r[b] == s[b'];
      }
      forall k | 0 <= k < |r| ensures r[k] != x {
        var k' := if k < i then k else k + 1;
        assert r[k] == s[k'];
      }
  }

  function Flatten<T>(ss: seq<seq<T>>): seq<T>
  {
    if |ss| == 0 then [] else Flatten(ss[..|ss| - 1]) + ss[|ss| - 1]
  }

  lemma FlattenSnoc<T>(ss: seq<seq<T>>, s: seq<T>)
    ensures Flatten(ss + [s]) == Flatten(ss) + s
  {
    assert (ss + [s])[..|ss|] == ss;
  }

  /** Appending the empty list changes nothing. */
  lemma AppendNil<T>(a: seq<T>, b: seq<T>)
    requires b == []
    ensures a + b == a
  {
  }

  /** Concatenation is associative. */
  lemma AppendAssociative<T>(a: seq<T>, b: seq<T>, c: seq<T>)
    ensures (a + b) + c == a + (b + c)
  {
  }

  lemma {:induction false} FlattenAppend<T>(ss: seq<seq<T>>, tt: seq<seq<T>>)
    ensures Flatten(ss + tt) == Flatten(ss) + Flatten(tt)
    decreases |tt|
  {
    if |tt| == 0 {
      assert ss + tt == ss;
    } else {
      var init, last := tt[..|tt| - 1], tt[|tt| - 1];
      assert ss + tt == (ss + init) + [last];
      assert tt == init + [last];
      FlattenSnoc(ss + init, last);
      FlattenAppend(ss, init);
      FlattenSnoc(init, last);
    }
  }

  /** Every element of a member list is an element of the flattening. */
  lemma {:induction false} FlattenMember<T>(ss: seq<seq<T>>, i: nat, x: T)
    requires i < |ss| && x in ss[i]
    ensures x in Flatten(ss)
    decreases |ss|
  {
    var init := ss[..|ss| - 1];
    if i < |ss| - 1 {
      assert init[i] == ss[i];
      FlattenMember(init, i, x);
    }
  }

  /** Every element of the flattening comes from some member list. */
  lemma {:induction false} FlattenMemberOf<T>(ss: seq<seq<T>>, x: T)
    requires x in Flatten(ss)
    ensures exists i :: 0 <= i < |ss| && x in ss[i]
    decreases |ss|
  {
    var init := ss[..|ss| - 1];
    if x !in ss[|ss| - 1] {
      FlattenMemberOf(init, x);
      var i :| 0 <= i < |init| && x in init[i];
      assert ss[i] == init[i];
    }
  }

  /** The lists `f` gives the elements of `xs`, concatenated in order. */
  function FlatMap<X, T>(f: X -> seq<T>, xs: seq<X>): seq<T>
  {
    if |xs| == 0 then [] else FlatMap(f, xs[..|xs| - 1]) + f(xs[|xs| - 1])
  }

  lemma FlatMapSnoc<X, T>(f: X -> seq<T>, xs: seq<X>, x: X)
    ensures FlatMap(f, xs + [x]) == FlatMap(f, xs) + f(x)
  {
    assert (xs + [x])[..|xs|] == xs;
  }

  lemma {:induction false} FlatMapAppend<X, T>(f: X -> seq<T>, xs: seq<X>, ys: seq<X>)
    ensures FlatMap(f, xs + ys) == FlatMap(f, xs) + FlatMap(f, ys)
    decreases |ys|
  {
    if |ys| == 0 {
      assert xs + ys == xs;
    } else {
      var init, last := ys[..|ys| - 1], ys[|ys| - 1];
      assert xs + ys == (xs + init) + [last];
      assert ys == init + [last];
      FlatMapSnoc(f, xs + init, last);
      FlatMapAppend(f, xs, init);
      FlatMapSnoc(f, init, last);
    }
  }

  /** `s` repeated `m` times. */
  function Repeat<T>(s: seq<T>, m: nat): (r: seq<T>)
    ensures |r| == m * |s|
  {
    if m == 0 then [] else Repeat(s, m - 1) + s
  }

  lemma {:induction false} RepeatMember<T>(s: seq<T>, m: nat, x: T)
    requires x in Repeat(s, m)
    ensures x in s
  {
    if m > 0 && x !in s {
      RepeatMember(s, m - 1, x);
    }
  }
}
