/** Types shared by every part of the model. */
module Common {
  /** An octet, as the C++ sources use `uint8_t` / `IOBasicTypes::Byte`. */
  type byte = x: int | 0 <= x < 256

  /** `charta::EStatusCode`, restricted to the two values the core returns. */
  datatype Status = Success | Failure

  datatype Option<T> = None | Some(value: T)

  /** Bytes of an ASCII text (each character taken modulo 256). */
  function Ascii(s: string): (r: seq<byte>)
    ensures |r| == |s|
    ensures forall i :: 0 <= i < |s| ==> r[i] == (s[i] as int) % 256
  {
    seq(|s|, i requires 0 <= i < |s| => (s[i] as int) % 256)
  }

  function Min(a: int, b: int): int { if a <= b then a else b }

  /** Moving a block from the front of the pending part to the end of the done part. */
  lemma Regroup<T>(done: seq<T>, moved: seq<T>, rest: seq<T>, all: seq<T>)
    requires all == done + (moved + rest)
    ensures all == (done + moved) + rest
  {
  }

  /** The middle part of a three-part concatenation. */
  lemma MiddleSlice<T>(a: seq<T>, b: seq<T>, c: seq<T>)
    ensures (a + b + c)[|a|..|a| + |b|] == b && (a + b + c)[..|a|] == a
  {
  }

  /** A slice of a concatenation that falls inside one of its two parts. */
  lemma SliceOfPart<T>(a: seq<T>, c: seq<T>, lo: nat, hi: nat)
    requires lo <= hi
    ensures hi <= |a| ==> (a + c)[lo..hi] == a[lo..hi]
    ensures hi <= |c| ==> (a + c)[|a| + lo..|a| + hi] == c[lo..hi]
  {
  }

  /** Appending to a concatenation appends to its second part. */
  lemma AppendAssoc<T>(a: seq<T>, b: seq<T>, c: seq<T>)
    ensures (a + b) + c == a + (b + c)
  {
  }

  /** A prefix followed by eight parts is the prefix followed by their concatenation. */
  lemma PrefixThenParts<T>(p: seq<T>, a: seq<T>, b: seq<T>, c: seq<T>, d: seq<T>, e: seq<T>, f: seq<T>, g: seq<T>, h: seq<T>)
    ensures p + a + b + c + d + e + f + g + h == p + (a + b + c + d + e + f + g + h)
  {
    AppendAssoc(p, a, b);
    AppendAssoc(p, a + b, c);
    AppendAssoc(p, a + b + c, d);
    AppendAssoc(p, a + b + c + d, e);
    AppendAssoc(p, a + b + c + d + e, f);
    AppendAssoc(p, a + b + c + d + e + f, g);
    AppendAssoc(p, a + b + c + d + e + f + g, h);
  }

  /** A prefix one element longer. */
  lemma TakeSnoc<T>(s: seq<T>, k: nat)
    requires k < |s|
    ensures s[..k + 1] == s[..k] + [s[k]]
  {
  }

  lemma AppendEmpty<T>(a: seq<T>)
    ensures [] + a == a && a + [] == a
  {
  }

  /** Strictly increasing: sorted and free of duplicates. */
  predicate Increasing(ids: seq<nat>)
  {
    forall i, j :: 0 <= i < j < |ids| ==> ids[i] < ids[j]
  }

  /** The elements of a set in increasing order, as iterating the ordered set gives them. */
  method OrderedElements(s: set<nat>) returns (r: seq<nat>)
    ensures Increasing(r)
    ensures forall x :: x in r <==> x in s
  {
    var rest := s;
    r := [];
    while rest != {}
      invariant SplitsOrdered(s, r, rest)
      decreases |rest|
    {
      var m := Least(rest);
      OrderedStep(s, r, rest, m);
      r := r + [m];
      rest := rest - {m};
    }
  }

  /** The elements of a set in increasing order, the one such list (`IncreasingUnique`): what `OrderedElements` returns. */
  ghost function Sorted(s: set<nat>): (r: seq<nat>)
    ensures Increasing(r) && |r| == |s| && forall x :: x in r <==> x in s
    decreases |s|
  {
    if s == {} then []
    else
      var m := MinOf(s);
      var rest := Sorted(s - {m});
      LeastFirst(s, m, rest);
      [m] + rest
  }

  /** The least element of a non-empty set. */
  ghost function MinOf(s: set<nat>): (m: nat)
    requires s != {}
    ensures m in s && forall x :: x in s ==> m <= x
  {
    HasMinimum(s);
    var m :| m in s && forall x :: x in s ==> m <= x; m
  }

  /** The least element of a set, before the others in increasing order. */
  lemma LeastFirst(s: set<nat>, m: nat, rest: seq<nat>)
    requires m in s && (forall x :: x in s ==> m <= x)
    requires Increasing(rest) && |rest| == |s - {m}| && forall x :: x in rest <==> x in s - {m}
    ensures Increasing([m] + rest) && |[m] + rest| == |s| && forall x :: x in [m] + rest <==> x in s
  {
    var r := [m] + rest;
    forall i, j | 0 <= i < j < |r|
      ensures r[i] < r[j]
    {
      assert r[j] == rest[j - 1] && rest[j - 1] in rest;
      if i > 0 {
        assert r[i] == rest[i - 1];
      }
    }
  }

  /** The tail of an increasing list holds all its elements but the first. */
  lemma TailMembers(a: seq<nat>)
    requires Increasing(a) && a != []
    ensures forall x :: x in a[1..] <==> x in a && x != a[0]
  {
    assert a == [a[0]] + a[1..];
    forall k | 0 <= k < |a| - 1
      ensures a[1..][k] != a[0]
    {
      assert a[1..][k] == a[k + 1];
    }
  }

  /** Two increasing lists with the same elements are the same list. */
  lemma {:induction false} IncreasingUnique(a: seq<nat>, b: seq<nat>)
    requires Increasing(a) && Increasing(b) && forall x :: x in a <==> x in b
    ensures a == b
    decreases |a|
  {
    SameEmptiness(a, b);
    if a != [] {
      assert a[0] in b && b[0] in a;
      var i :| 0 <= i < |a| && a[i] == b[0];
      var j :| 0 <= j < |b| && b[j] == a[0];
      assert a[0] <= a[i] && b[0] <= b[j];
      TailMembers(a);
      TailMembers(b);
      IncreasingUnique(a[1..], b[1..]);
      assert a == [a[0]] + a[1..] && b == [b[0]] + b[1..];
    }
  }

  /** Lists with the same elements are both empty or both not. */
  lemma SameEmptiness(a: seq<nat>, b: seq<nat>)
    requires forall x :: x in a <==> x in b
    ensures a == [] <==> b == []
  {
    if a != [] {
      assert a[0] in b;
    }
    if b != [] {
      assert b[0] in a;
    }
  }

  /** The least element of a non-empty set, the next one a `std::set` iteration yields. */
  method Least(s: set<nat>) returns (m: nat)
    requires s != {}
    ensures m in s && forall x :: x in s ==> m <= x
  {
    HasMinimum(s);
    m :| m in s && forall x :: x in s ==> m <= x;
  }

  /** `r` lists in increasing order the elements of `s` below every element of `rest`, which holds the others. */
  ghost predicate SplitsOrdered(s: set<nat>, r: seq<nat>, rest: set<nat>)
  {
    && Increasing(r) && rest <= s
    && (forall x :: x in s <==> x in r || x in rest)
    && (forall x, y :: x in r && y in rest ==> x < y)
  }

  /** Moving the least remaining element to the end of the ordered prefix keeps `OrderedElements`' invariant. */
  lemma OrderedStep(s: set<nat>, r: seq<nat>, rest: set<nat>, m: nat)
    requires SplitsOrdered(s, r, rest) && m in rest && forall x :: x in rest ==> m <= x
    ensures SplitsOrdered(s, r + [m], rest - {m}) && |rest - {m}| < |rest|
  {
    var next := r + [m];
    forall i, j | 0 <= i < j < |next|
      ensures next[i] < next[j]
    {
      if j < |r| {
        assert next[i] == r[i] && next[j] == r[j];
      } else {
        assert next[i] == r[i] && r[i] in r;
      }
    }
  }

  /** A non-empty set of naturals has a least element. */
  lemma HasMinimum(s: set<nat>)
    requires s != {}
    ensures exists m :: m in s && forall x :: x in s ==> m <= x
  {
    var x :| x in s;
    MinimumUpTo(s, x);
  }

  /** Descending from an element of the set reaches its least element. */
  lemma {:induction false} MinimumUpTo(s: set<nat>, n: nat)
    requires n in s
    ensures exists m :: m in s && forall x :: x in s ==> m <= x
    decreases n
  {
    if y :| y in s && y < n {
      MinimumUpTo(s, y);
    } else {
      assert forall x :: x in s ==> n <= x;
    }
  }

  /** Seeking back to `p` and writing `b` over bytes that are already there. */
  function Patch(s: seq<byte>, p: nat, b: seq<byte>): (r: seq<byte>)
    requires p + |b| <= |s|
    ensures |r| == |s| && r[p..p + |b|] == b
    ensures r[..p] == s[..p] && r[p + |b|..] == s[p + |b|..]
  {
    s[..p] + b + s[p + |b|..]
  }

  /** A patch leaves every byte outside the patched range alone. */
  lemma PatchOutside(s: seq<byte>, p: nat, b: seq<byte>)
    requires p + |b| <= |s|
    ensures forall i :: 0 <= i < |s| && !(p <= i < p + |b|) ==> Patch(s, p, b)[i] == s[i]
  {
    var r := Patch(s, p, b);
    forall i | 0 <= i < |s| && !(p <= i < p + |b|)
      ensures r[i] == s[i]
    {
      if i < p {
        assert r[..p][i] == s[..p][i];
      } else {
        assert r[p + |b|..][i - p - |b|] == s[p + |b|..][i - p - |b|];
      }
    }
  }

  /** A write leaves a range it does not touch alone. */
  lemma PatchElsewhere(s: seq<byte>, q: nat, b: seq<byte>, lo: nat, hi: nat)
    requires q + |b| <= |s| && lo <= hi <= |s| && (hi <= q || q + |b| <= lo)
    ensures Patch(s, q, b)[lo..hi] == s[lo..hi]
  {
    var r := Patch(s, q, b);
    PatchOutside(s, q, b);
    assert forall k :: 0 <= k < hi - lo ==> r[lo..hi][k] == r[lo + k] == s[lo + k] == s[lo..hi][k];
  }

  /** Patching bytes that follow a prefix leaves the prefix alone. */
  lemma PatchAfter(s: seq<byte>, c: seq<byte>, k: nat, b: seq<byte>)
    requires k + |b| <= |c|
    ensures Patch(s + c, |s| + k, b) == s + Patch(c, k, b)
  {
    assert (s + c)[..|s| + k] == s + c[..k];
    assert (s + c)[|s| + k + |b|..] == c[k + |b|..];
  }
}
