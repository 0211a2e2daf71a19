/** The handful of JavaScript built-ins the wheel's logic leans on, stated once:
    optional values and their truthiness, `a || b` on strings, `Array.prototype.indexOf`,
    `Array.prototype.filter`, `Array.prototype.join` and `Math.min` / `Math.max`. */
module JsUtil {

  datatype Option<T> = None | Some(value: T)

  /** An optional text field of a JSON record: `None` is an absent (or `undefined`) field. */
  type Text = Option<string>

  /** JavaScript truthiness of an optional string: present and non-empty. */
  predicate Truthy(t: Text) {
    t.Some? && t.value != ""
  }

  /** `t || dflt` for a field that is either a string or absent. */
  function OrElse(t: Text, dflt: string): (r: string)
    ensures Truthy(t) ==> r == t.value
    ensures !Truthy(t) ==> r == dflt
  {
    if Truthy(t) then t.value else dflt
  }

  /** `s.indexOf(x)`: the first position holding `x`, or -1 when there is none. */
  function IndexOf<T(==)>(s: seq<T>, x: T): (r: int)
    ensures r == -1 <==> x !in s
    ensures r != -1 ==> 0 <= r < |s| && s[r] == x && x !in s[..r]
  {
    if |s| == 0 then -1
    else if s[0] == x then 0
    else
      var r := IndexOf(s[1..], x);
      assert s[1..][..if r == -1 then 0 else r] == s[1..(if r == -1 then 0 else r) + 1];
      if r == -1 then -1 else r + 1
  }

  /** `s.filter(p)`: the elements of `s` that satisfy `p`, in their order. */
  function Filter<T(!new)>(s: seq<T>, p: T -> bool): (r: seq<T>)
    ensures |r| <= |s|
    ensures forall x :: x in r <==> x in s && p(x)
    ensures forall x :: multiset(r)[x] == if p(x) then multiset(s)[x] else 0
  {
    if |s| == 0 then []
    else
      var rest := Filter(s[1..], p);
      assert s == [s[0]] + s[1..];
      assert forall x :: x in s <==> x == s[0] || x in s[1..];
      if p(s[0]) then [s[0]] + rest else rest
  }

  /** Filtering keeps the order: it distributes over concatenation. */
  lemma {:induction false} FilterConcat<T(!new)>(a: seq<T>, b: seq<T>, p: T -> bool)
    ensures Filter(a + b, p) == Filter(a, p) + Filter(b, p)
    decreases |a|
  {
    if |a| > 0 {
      assert (a + b)[1..] == a[1..] + b;
      FilterConcat(a[1..], b, p);
    } else {
      assert a + b == b;
    }
  }

  /** The elements strictly increase from left to right. */
  predicate Increasing(s: seq<nat>) {
    forall i, j :: 0 <= i < j < |s| ==> s[i] < s[j]
  }

  /** Filtering an increasing sequence gives an increasing sequence. */
  lemma {:induction false} FilterIncreasing(s: seq<nat>, p: nat -> bool)
    requires Increasing(s)
    ensures Increasing(Filter(s, p))
    decreases |s|
  {
    if |s| > 0 {
      var tail := s[1..];
      assert Increasing(tail) by {
        forall i, j | 0 <= i < j < |tail| ensures tail[i] < tail[j] {
          assert tail[i] == s[i + 1] && tail[j] == s[j + 1];
        }
      }
      FilterIncreasing(tail, p);
      if p(s[0]) {
        var rest := Filter(tail, p);
        forall x | x in rest ensures s[0] < x {
          var k :| 0 <= k < |tail| && tail[k] == x;
          assert s[k + 1] == x;
        }
        ConsIncreasing(s[0], rest);
        assert Filter(s, p) == [s[0]] + rest;
      } else {
        assert Filter(s, p) == Filter(tail, p);
      }
    }
  }

  /** Putting an element below all others in front keeps a sequence increasing. */
  lemma ConsIncreasing(a: nat, r: seq<nat>)
    requires Increasing(r) && forall x :: x in r ==> a < x
    ensures Increasing([a] + r)
  {
    var s := [a] + r;
    forall i, j | 0 <= i < j < |s| ensures s[i] < s[j] {
      assert s[j] == r[j - 1] && r[j - 1] in r;
      if i > 0 { assert s[i] == r[i - 1]; }
    }
  }

  /** `s.join(sep)`. */
  function Join(s: seq<string>, sep: string): (r: string)
    ensures |s| == 0 ==> r == ""
    ensures |s| == 1 ==> r == s[0]
    ensures |s| > 0 ==> |s[0]| <= |r| && r[..|s[0]|] == s[0]
    ensures |s| > 1 ==> |s[0] + sep| <= |r| && r[..|s[0] + sep|] == s[0] + sep
  {
    if |s| == 0 then ""
    else if |s| == 1 then s[0]
    else s[0] + sep + Join(s[1..], sep)
  }

  /** Joining one more element appends the separator and that element. */
  lemma {:induction false} JoinSnoc(s: seq<string>, x: string, sep: string)
    requires |s| > 0
    ensures Join(s + [x], sep) == Join(s, sep) + sep + x
  {
    if |s| == 1 {
      assert s + [x] == [s[0], x];
      assert (s + [x])[1..] == [x];
    } else {
      assert (s + [x])[1..] == s[1..] + [x];
      JoinSnoc(s[1..], x, sep);
    }
  }

  /** The last element of a non-empty joined sequence ends the joined string. */
  lemma {:induction false} JoinEndsWithLast(s: seq<string>, sep: string)
    requires |s| > 0
    ensures var j := Join(s, sep); |s[|s| - 1]| <= |j| && j[|j| - |s[|s| - 1]|..] == s[|s| - 1]
  {
    if |s| > 1 {
      JoinEndsWithLast(s[1..], sep);
    }
  }

  /** `Math.min(a, b)`. */
  function Min(a: real, b: real): (r: real)
    ensures r <= a && r <= b && (r == a || r == b)
  {
    if a <= b then a else b
  }

  /** `Math.max(a, b)`. */
  function Max(a: real, b: real): (r: real)
    ensures r >= a && r >= b && (r == a || r == b)
  {
    if a >= b then a else b
  }
}
