/** Values shared by every part of the model: optional values, the error
    channel of the controllers, JavaScript truthiness of request fields, and
    duplicate removal as done by a grouping stage. */
module Common {

  datatype Option<+T> = None | Some(value: T)

  /** What a controller hands to `next(err)` or sends back: a value, or an
      error carrying the source's message. */
  datatype Result<+T> = Ok(value: T) | Err(msg: string)

  /** A request string field is "given" when it is present and not the empty
      string: `!field` is true exactly for `undefined`, `null` and `""`. */
  predicate Given(s: Option<string>)
  {
    s.Some? && s.value != ""
  }

  /** No element occurs twice. */
  predicate NoDuplicates<T(==)>(s: seq<T>)
  {
    forall i, j :: 0 <= i < j < |s| ==> s[i] != s[j]
  }

  /** The distinct elements of `s`, in order of first occurrence. */
  function Distinct<T(==,!new)>(s: seq<T>): (r: seq<T>)
    ensures forall x :: x in r <==> x in s
    ensures NoDuplicates(r)
    ensures |r| <= |s|
  {
    if |s| == 0 then []
    else
      var d := Distinct(s[..|s| - 1]);
      var x := s[|s| - 1];
      assert forall y :: y in s <==> y in s[..|s| - 1] || y == x by {
        assert s == s[..|s| - 1] + [x];
      }
      if x in d then d else d + [x]
  }
}
