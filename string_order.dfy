/** Ordinal (code-point by code-point) order on strings, and the
    de-duplicating insertion that turns a query's rows into a sorted list
    of distinct entries. */
module StringOrder {

  /** `a` sorts strictly before `b`: the first differing character is
      smaller, or `a` is a proper prefix of `b`. */
  predicate Less(a: string, b: string)
    decreases |a|
  {
    if |a| == 0 then |b| > 0
    else if |b| == 0 then false
    else if a[0] != b[0] then a[0] < b[0]
    else Less(a[1..], b[1..])
  }

  lemma {:induction false} LessIrreflexive(a: string)
    ensures !Less(a, a)
    decreases |a|
  {
    if |a| > 0 {
      LessIrreflexive(a[1..]);
    }
  }

  lemma {:induction false} LessTransitive(a: string, b: string, c: string)
    requires Less(a, b) && Less(b, c)
    ensures Less(a, c)
    decreases |a|
  {
    if |a| > 0 && a[0] == b[0] && b[0] == c[0] {
      LessTransitive(a[1..], b[1..], c[1..]);
    }
  }

  lemma {:induction false} LessTotal(a: string, b: string)
    ensures a == b || Less(a, b) || Less(b, a)
    decreases |a|
  {
    if |a| > 0 && |b| > 0 && a[0] == b[0] {
      LessTotal(a[1..], b[1..]);
      if a[1..] == b[1..] {
        assert a == [a[0]] + a[1..] && b == [b[0]] + b[1..];
      }
    }
  }

  lemma {:induction false} LessAsymmetric(a: string, b: string)
    requires Less(a, b)
    ensures !Less(b, a)
  {
    if Less(b, a) {
      LessTransitive(a, b, a);
      LessIrreflexive(a);
    }
  }

  /** The keys never decrease along the sequence. */
  ghost predicate SortedBy<T>(s: seq<T>, key: T -> string)
  {
    forall i, j :: 0 <= i < j < |s| ==> !Less(key(s[j]), key(s[i]))
  }

  predicate Distinct<T(==)>(s: seq<T>)
  {
    forall i, j :: 0 <= i < j < |s| ==> s[i] != s[j]
  }

  /** Adds `x` to a sorted, duplicate-free sequence unless it is already
      there, before the first entry whose key is greater. */
  function InsertBy<T(==,!new)>(x: T, s: seq<T>, key: T -> string): (r: seq<T>)
    requires SortedBy(s, key) && Distinct(s)
    ensures SortedBy(r, key) && Distinct(r)
    ensures forall y :: y in r <==> y in s || y == x
  {
    if x in s then s
    else if s == [] then [x]
    else if Less(key(x), key(s[0])) then
      var r := [x] + s;
      forall i, j | 0 <= i < j < |r| ensures !Less(key(r[j]), key(r[i])) {
        if i == 0 && j > 1 {
          if Less(key(r[j]), key(x)) {
            LessTransitive(key(r[j]), key(x), key(s[0]));
          }
        } else if i == 0 {
          LessAsymmetric(key(x), key(s[0]));
        }
      }
      r
    else
      var tail := InsertBy(x, s[1..], key);
      var r := [s[0]] + tail;
      forall i, j | 0 <= i < j < |r| ensures !Less(key(r[j]), key(r[i])) {
        if i == 0 {
          assert r[j] in tail;
        }
      }
      forall i, j | 0 <= i < j < |r| ensures r[i] != r[j] {
        if i == 0 {
          assert r[j] in tail;
          assert s[0] !in s[1..];
        }
      }
      r
  }

  /** The distinct entries of `s`, sorted by key. */
  function SortDistinctBy<T(==,!new)>(s: seq<T>, key: T -> string): (r: seq<T>)
    ensures SortedBy(r, key) && Distinct(r)
    ensures forall y :: y in r <==> y in s
  {
    if s == [] then []
    else
      var r := InsertBy(s[|s| - 1], SortDistinctBy(s[..|s| - 1], key), key);
      assert forall y :: y in s <==> y in s[..|s| - 1] || y == s[|s| - 1] by {
        assert s == s[..|s| - 1] + [s[|s| - 1]];
      }
      r
  }

  /** Strictly ascending. */
  predicate Ascending(s: seq<string>)
  {
    forall i, j :: 0 <= i < j < |s| ==> Less(s[i], s[j])
  }

  /** For strings ordered by themselves, sorted and duplicate-free is
      strictly ascending. */
  lemma SortedDistinctIsAscending(s: seq<string>)
    requires SortedBy(s, (x: string) => x) && Distinct(s)
    ensures Ascending(s)
  {
    forall i, j | 0 <= i < j < |s| ensures Less(s[i], s[j]) {
      assert !Less(s[j], s[i]);
      LessTotal(s[i], s[j]);
    }
  }
}
