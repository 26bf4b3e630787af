/** Helpers shared by every module of the model: JavaScript's `null`, the
    order-preserving `Array.prototype.filter`, and the decimal rendering a
    template literal gives to a number. */
module Common {

  /** A value that may be `null` in JavaScript. */
  datatype Option<T> = None | Some(value: T)

  /** The property key JavaScript derives from a plain object used as a key:
      `String({})` is "[object Object]". */
  const ObjectKey: string := "[object Object]"

  /** `a` can be obtained from `b` by deleting elements, keeping the order. */
  predicate IsSubsequence<T(==)>(a: seq<T>, b: seq<T>)
    decreases |b|
  {
    if |a| == 0 then true
    else if |b| == 0 then false
    else if a[0] == b[0] then IsSubsequence(a[1..], b[1..])
    else IsSubsequence(a, b[1..])
  }

  /** Every element of a subsequence is an element of the whole sequence. */
  lemma {:induction false} SubsequenceMembers<T>(a: seq<T>, b: seq<T>)
    requires IsSubsequence(a, b)
    ensures forall x :: x in a ==> x in b
    decreases |b|
  {
    if |a| == 0 {
    } else if a[0] == b[0] {
      SubsequenceMembers(a[1..], b[1..]);
      assert a == [a[0]] + a[1..];
    } else {
      SubsequenceMembers(a, b[1..]);
    }
  }

  /** `Array.prototype.filter`: the elements satisfying `p`, in their order,
      each as often as it occurs. */
  function Filter<T(==,!new)>(p: T -> bool, s: seq<T>): (r: seq<T>)
    ensures |r| <= |s|
    ensures forall x :: x in r <==> x in s && p(x)
    ensures IsSubsequence(r, s)
  {
    if |s| == 0 then []
    else
      var rest := Filter(p, s[1..]);
      assert s == [s[0]] + s[1..];
      if p(s[0]) then
        assert ([s[0]] + rest)[1..] == rest;
        [s[0]] + rest
      else
        rest
  }

  /** The filter keeps every occurrence of an element that passes and none
      of one that fails. */
  lemma {:induction false} FilterCount<T(!new)>(p: T -> bool, s: seq<T>)
    ensures forall x :: multiset(Filter(p, s))[x] == if p(x) then multiset(s)[x] else 0
  {
    if |s| > 0 {
      FilterCount(p, s[1..]);
      assert s == [s[0]] + s[1..];
    }
  }

  /** Filtering a sequence extended at the back filters the new element
      last. */
  lemma {:induction false} FilterSnoc<T(!new)>(p: T -> bool, s: seq<T>, x: T)
    ensures Filter(p, s + [x]) == Filter(p, s) + (if p(x) then [x] else [])
  {
    var t := s + [x];
    if |s| == 0 {
      assert t == [x] && t[1..] == [];
      var rest := Filter(p, t[1..]);
      assert rest == [];
      assert Filter(p, t) == if p(x) then [x] + rest else rest;
    } else {
      var a := if p(s[0]) then [s[0]] else [];
      var b := if p(x) then [x] else [];
      assert t[0] == s[0];
      assert t[1..] == s[1..] + [x];
      FilterSnoc(p, s[1..], x);
      assert Filter(p, t[1..]) == Filter(p, s[1..]) + b;
      assert Filter(p, t) == a + Filter(p, t[1..]);
      assert Filter(p, s) == a + Filter(p, s[1..]);
      assert a + (Filter(p, s[1..]) + b) == (a + Filter(p, s[1..])) + b;
    }
  }

  /** Filters with predicates that agree everywhere agree. */
  lemma {:induction false} FilterSame<T(!new)>(p: T -> bool, q: T -> bool, s: seq<T>)
    requires forall x :: p(x) == q(x)
    ensures Filter(p, s) == Filter(q, s)
  {
    if |s| > 0 {
      FilterSame(p, q, s[1..]);
    }
  }

  /** `Array.prototype.find`: the first element satisfying `p`, if any. */
  function FindFirst<T>(p: T -> bool, s: seq<T>): (r: Option<T>)
    ensures r.None? <==> forall i :: 0 <= i < |s| ==> !p(s[i])
    ensures r.Some? ==> r.value in s && p(r.value)
  {
    if |s| == 0 then None
    else if p(s[0]) then Some(s[0])
    else
      var r := FindFirst(p, s[1..]);
      assert forall i :: 1 <= i < |s| ==> s[i] == s[1..][i - 1];
      r
  }

  /** What `FindFirst` returns is the earliest element satisfying `p`. */
  lemma {:induction false} FindFirstIsFirst<T>(p: T -> bool, s: seq<T>)
    requires FindFirst(p, s).Some?
    ensures exists i :: 0 <= i < |s| && s[i] == FindFirst(p, s).value && forall j :: 0 <= j < i ==> !p(s[j])
  {
    if !p(s[0]) {
      FindFirstIsFirst(p, s[1..]);
      var i :| 0 <= i < |s[1..]| && s[1..][i] == FindFirst(p, s[1..]).value && forall j :: 0 <= j < i ==> !p(s[1..][j]);
      assert s[i + 1] == s[1..][i];
      assert forall j :: 1 <= j < i + 1 ==> s[j] == s[1..][j - 1];
    } else {
      assert s[0] == FindFirst(p, s).value;
    }
  }

  /** A predicate every element satisfies passes the filter unchanged. */
  lemma {:induction false} FilterAll<T(!new)>(p: T -> bool, s: seq<T>)
    requires forall x :: x in s ==> p(x)
    ensures Filter(p, s) == s
  {
    if |s| > 0 {
      FilterAll(p, s[1..]);
      assert s == [s[0]] + s[1..];
    }
  }

  /** The decimal digit character of `d`. */
  function Digit(d: nat): (c: char)
    requires d < 10
    ensures '0' <= c <= '9'
  {
    ('0' as int + d) as char
  }

  /** The value of a decimal digit character. */
  function DigitValue(c: char): int
  {
    c as int - '0' as int
  }

  /** The text `${n}` produces for a natural number: decimal, no leading zeros. */
  function NatToString(n: nat): (s: string)
    ensures |s| >= 1
    ensures forall i :: 0 <= i < |s| ==> '0' <= s[i] <= '9'
    ensures n >= 10 ==> |s| >= 2
  {
    if n < 10 then [Digit(n)] else NatToString(n / 10) + [Digit(n % 10)]
  }

  /** Reads back a run of decimal digits. */
  function ParseNat(s: string): int
  {
    if |s| == 0 then 0 else 10 * ParseNat(s[..|s| - 1]) + DigitValue(s[|s| - 1])
  }

  /** Reading back the decimal text of `n` gives `n`. */
  lemma {:induction false} ParseNatToString(n: nat)
    ensures ParseNat(NatToString(n)) == n
  {
    var s := NatToString(n);
    if n < 10 {
      assert s[..0] == [];
    } else {
      ParseNatToString(n / 10);
      assert s[..|s| - 1] == NatToString(n / 10);
    }
  }

  /** Distinct numbers render as distinct text. */
  lemma NatToStringInjective(a: nat, b: nat)
    requires NatToString(a) == NatToString(b)
    ensures a == b
  {
    ParseNatToString(a);
    ParseNatToString(b);
  }
}
