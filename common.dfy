/** Value types and string helpers shared by the modules of the self-service client model. */
module Common {

  datatype Option<+T> = None | Some(value: T)

  /** The result of a step that may raise `Abort`, the only error the client handles itself. */
  datatype Outcome<+T> = Ok(value: T) | Abort(message: string)

  /**
   * A Python value as the client sees it: a decoded JSON document, or the value an
   * action's `main` returns. `JNull` is `None`. Floating-point numbers are not modelled.
   */
  datatype Json =
    | JNull
    | JBool(b: bool)
    | JInt(i: int)
    | JStr(s: string)
    | JList(items: seq<Json>)
    | JObject(fields: map<string, Json>)

  predicate StartsWith(s: string, prefix: string) {
    |prefix| <= |s| && s[..|prefix|] == prefix
  }

  predicate EndsWith(s: string, suffix: string) {
    |suffix| <= |s| && s[|s| - |suffix|..] == suffix
  }

  predicate IsDigit(c: char) {
    '0' <= c <= '9'
  }

  predicate AllDigits(s: string) {
    forall i :: 0 <= i < |s| ==> IsDigit(s[i])
  }

  /** Index of the first occurrence of `c` in `s`, as `str.find` gives it (None for -1). */
  function FindChar(s: string, c: char): (r: Option<nat>)
    ensures r.None? <==> c !in s
    ensures r.Some? ==> r.value < |s| && s[r.value] == c && c !in s[..r.value]
  {
    if |s| == 0 then None
    else if s[0] == c then Some(0)
    else
      match FindChar(s[1..], c)
      case None => None
      case Some(k) =>
        assert s[..k + 1] == [s[0]] + s[1..][..k];
        Some(k + 1)
  }

  /**
   * `a, b = s.split(c, 1)`: the text before and after the first `c`, or None when the
   * unpacking raises ValueError because `c` does not occur.
   */
  function SplitOnce(s: string, c: char): (r: Option<(string, string)>)
    ensures r.None? <==> c !in s
    ensures r.Some? ==> s == r.value.0 + [c] + r.value.1 && c !in r.value.0
  {
    match FindChar(s, c)
    case None => None
    case Some(k) =>
      assert s == s[..k] + [c] + s[k + 1..];
      Some((s[..k], s[k + 1..]))
  }

  /** Splitting at the first separator undoes joining at a separator the head does not hold. */
  lemma SplitOnceJoin(head: string, c: char, tail: string)
    requires c !in head
    ensures SplitOnce(head + [c] + tail, c) == Some((head, tail))
  {
    var s := head + [c] + tail;
    assert s[|head|] == c;
    var r := SplitOnce(s, c);
    assert r.Some?;
    var (h, t) := r.value;
    assert |h| == |head|;
    assert h == s[..|head|] == head;
    assert t == s[|head| + 1..] == tail;
  }
}
