/** Generic sequence operations the core relies on: concatenating a list of lists,
    removing every occurrence of a token, counting, Python's `zip(*xs)` and
    `' '.join(xs)` together with its inverse `s.split(' ')`. */
module Sequences {

  /** The concatenation of all the lists, in order. */
  function Flatten<T>(xss: seq<seq<T>>): (r: seq<T>)
  {
    if xss == [] then [] else xss[0] + Flatten(xss[1..])
  }

  lemma {:induction false} FlattenAppend<T>(a: seq<seq<T>>, b: seq<seq<T>>)
    ensures Flatten(a + b) == Flatten(a) + Flatten(b)
  {
    if a == [] {
      assert a + b == b;
    } else {
      assert (a + b)[1..] == a[1..] + b;
      FlattenAppend(a[1..], b);
    }
  }

  /** `s` with every occurrence of `k` removed, order kept. */
  function Remove<T(==)>(s: seq<T>, k: T): (r: seq<T>)
    ensures |r| <= |s|
    ensures k !in r
    ensures forall i :: 0 <= i < |r| ==> r[i] in s
  {
    if s == [] then [] else (if s[0] == k then [] else [s[0]]) + Remove(s[1..], k)
  }

  lemma {:induction false} RemoveAppend<T>(a: seq<T>, b: seq<T>, k: T)
    ensures Remove(a + b, k) == Remove(a, k) + Remove(b, k)
  {
    if a == [] {
      assert a + b == b;
    } else {
      assert (a + b)[1..] == a[1..] + b;
      RemoveAppend(a[1..], b, k);
    }
  }

  /** Removing `k` from the concatenation is removing it from every list. */
  lemma {:induction false} RemoveFlatten<T>(xss: seq<seq<T>>, yss: seq<seq<T>>, k: T)
    requires |xss| == |yss|
    requires forall i :: 0 <= i < |xss| ==> yss[i] == Remove(xss[i], k)
    ensures Flatten(yss) == Remove(Flatten(xss), k)
  {
    if xss != [] {
      RemoveFlatten(xss[1..], yss[1..], k);
      RemoveAppend(xss[0], Flatten(xss[1..]), k);
    }
  }

  /** Number of occurrences of `x` in `s`. */
  function Count<T(==)>(s: seq<T>, x: T): (n: nat)
    ensures n <= |s|
    ensures n == 0 <==> x !in s
  {
    if s == [] then 0 else (if s[0] == x then 1 else 0) + Count(s[1..], x)
  }

  lemma {:induction false} CountAppend<T>(a: seq<T>, b: seq<T>, x: T)
    ensures Count(a + b, x) == Count(a, x) + Count(b, x)
  {
    if a == [] {
      assert a + b == b;
    } else {
      assert (a + b)[1..] == a[1..] + b;
      CountAppend(a[1..], b, x);
    }
  }

  /** The length of the shortest list: how many tuples `zip(*xss)` produces
      (none when there are no lists at all). */
  function MinLen<T>(xss: seq<seq<T>>): (n: nat)
    ensures forall v :: 0 <= v < |xss| ==> n <= |xss[v]|
    ensures xss != [] ==> exists v :: 0 <= v < |xss| && n == |xss[v]|
    ensures xss == [] ==> n == 0
  {
    if |xss| == 0 then 0
    else if |xss| == 1 then |xss[0]|
    else
      var m := MinLen(xss[1..]);
      assert forall v :: 1 <= v < |xss| ==> xss[1..][v - 1] == xss[v];
      if |xss[0]| <= m then |xss[0]| else m
  }

  /** All lists have the length of the first. */
  predicate SameLengths<T>(xss: seq<seq<T>>)
  {
    forall v :: 0 <= v < |xss| ==> |xss[v]| == |xss[0]|
  }

  lemma MinLenOfSameLengths<T>(xss: seq<seq<T>>)
    requires xss != [] && SameLengths(xss)
    ensures MinLen(xss) == |xss[0]|
  {
  }

  /** Python's `list(zip(*xss))`: tuple `i` holds element `i` of every list,
      and there are as many tuples as the shortest list is long. */
  function Zip<T>(xss: seq<seq<T>>): (r: seq<seq<T>>)
    ensures |r| == MinLen(xss)
    ensures forall i :: 0 <= i < |r| ==> |r[i]| == |xss|
    ensures forall i, v :: 0 <= i < |r| && 0 <= v < |xss| ==> r[i][v] == xss[v][i]
  {
    var n := MinLen(xss);
    seq(n, i requires 0 <= i < n => seq(|xss|, v requires 0 <= v < |xss| => xss[v][i]))
  }

  /** Python's `' '.join(xs)`. */
  function Join(xs: seq<string>): (s: string)
  {
    if xs == [] then ""
    else if |xs| == 1 then xs[0]
    else xs[0] + " " + Join(xs[1..])
  }

  /** Python's `s.split(' ')`: cut at every space, keeping empty pieces. */
  function SplitAtSpaces(s: string): (r: seq<string>)
    ensures |r| >= 1
  {
    if s == [] then [[]]
    else
      var rest := SplitAtSpaces(s[1..]);
      if s[0] == ' ' then [[]] + rest else [[s[0]] + rest[0]] + rest[1..]
  }

  predicate NoSpace(t: string)
  {
    ' ' !in t
  }

  lemma {:induction false} SplitAtSpacesWord(a: string, b: string)
    requires NoSpace(a)
    ensures SplitAtSpaces(a + b)[0] == a + SplitAtSpaces(b)[0]
    ensures SplitAtSpaces(a + b)[1..] == SplitAtSpaces(b)[1..]
  {
    if a != [] {
      assert (a + b)[1..] == a[1..] + b;
      SplitAtSpacesWord(a[1..], b);
      assert a == [a[0]] + a[1..];
    } else {
      assert a + b == b;
    }
  }

  /** `s.split(' ')` undoes `' '.join(xs)` when no token holds a space. */
  lemma {:induction false} SplitAtSpacesJoin(xs: seq<string>)
    requires |xs| > 0
    requires forall i :: 0 <= i < |xs| ==> NoSpace(xs[i])
    ensures SplitAtSpaces(Join(xs)) == xs
  {
    if |xs| == 1 {
      SplitAtSpacesWord(xs[0], []);
      assert xs[0] + [] == xs[0];
    } else {
      var tail := Join(xs[1..]);
      assert Join(xs) == xs[0] + (" " + tail);
      SplitAtSpacesWord(xs[0], " " + tail);
      assert (" " + tail)[0] == ' ' && (" " + tail)[1..] == tail;
      assert SplitAtSpaces(" " + tail) == [[]] + SplitAtSpaces(tail);
      SplitAtSpacesJoin(xs[1..]);
      var r := SplitAtSpaces(Join(xs));
      assert r[0] == xs[0] + [] == xs[0];
      assert r[1..] == xs[1..];
      assert r == [r[0]] + r[1..];
    }
  }

  /** Decimal digits of `n`, as Python's `f'{n}'` writes them. */
  function Decimal(n: nat): (s: string)
    ensures |s| > 0
    ensures forall i :: 0 <= i < |s| ==> '0' <= s[i] <= '9'
  {
    var d := [(('0' as int) + n % 10) as char];
    if n < 10 then d else Decimal(n / 10) + d
  }
}
