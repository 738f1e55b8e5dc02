/** Small value types shared by the services: nullable values, the
    service-level result and the string tests the source uses. */
module Common {

  /** A nullable reference (a C# `string` or `DateTime?` that may be null). */
  datatype Option<+T> = None | Some(value: T)

  /** The service-level result: success, or an error with a reason. */
  datatype OperateResult<+E> = Success | Error(reason: E)

  /** `OperateResult.Result(flag)`: success exactly when the flag is set. */
  function ResultOf<E>(ok: bool, failure: E): (r: OperateResult<E>)
    ensures r.Success? <==> ok
    ensures !ok ==> r.reason == failure
  {
    if ok then Success else Error(failure)
  }

  /** `IsNullOrEmpty` on a nullable string. */
  predicate IsNullOrEmpty(s: Option<string>)
  {
    s.None? || s.value == ""
  }

  /** `char.IsWhiteSpace`: the control characters U+0009 to U+000D and
      U+0085, and the space, line and paragraph separators of Unicode. */
  predicate IsWhiteSpace(c: char)
  {
    || '\U{9}' <= c <= '\U{D}'
    || c == ' ' || c == '\U{85}' || c == '\U{A0}' || c == '\U{1680}'
    || '\U{2000}' <= c <= '\U{200A}'
    || c == '\U{2028}' || c == '\U{2029}' || c == '\U{202F}' || c == '\U{205F}' || c == '\U{3000}'
  }

  /** `string.IsNullOrWhiteSpace`, the test behind a `[Required]` string. */
  predicate IsNullOrWhiteSpace(s: Option<string>): (blank: bool)
    ensures IsNullOrEmpty(s) ==> blank
    ensures !blank ==> s.Some? && exists i :: 0 <= i < |s.value| && !IsWhiteSpace(s.value[i])
  {
    s.None? || forall i :: 0 <= i < |s.value| ==> IsWhiteSpace(s.value[i])
  }

  /** Some element of a non-empty set, chosen by the caller's environment
      (the order in which a query yields its rows). */
  method Pick<T>(s: set<T>) returns (x: T)
    requires s != {}
    ensures x in s
  {
    x :| x in s;
  }

  ghost function Choose<T>(s: set<T>): (x: T)
    requires s != {}
    ensures x in s
  {
    var x :| x in s; x
  }

  /** A bound above every element of a finite set of keys. */
  ghost function UpperBound(s: set<int>): (b: int)
    ensures b > 0 && forall x :: x in s ==> x < b
    decreases s
  {
    if s == {} then 1
    else
      var y := Choose(s);
      var b := UpperBound(s - {y});
      assert forall x :: x in s ==> x == y || x in s - {y};
      if y < b then b else y + 1
  }

  /** The positive id the database assigns to a new row: one not in use. */
  method FreshKey<V>(rows: map<int, V>) returns (k: int)
    ensures k > 0 && k !in rows
  {
    var bound := UpperBound(rows.Keys);
    k :| k > 0 && k !in rows by {
      assert bound > 0 && bound !in rows;
    }
  }
}
