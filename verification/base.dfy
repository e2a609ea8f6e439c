/**
  Shared vocabulary of the model: optional values, results carrying an error,
  bytes, and the JavaScript `Array.prototype.find` search used wherever the
  server picks a display out of a list.
*/
module Base {

  /** A value that may be absent (`undefined` / `null` in the source). */
  datatype Option<+T> = None | Some(value: T)

  /** The outcome of an operation that can throw: `Err` carries what was thrown. */
  datatype Result<+T, +E> = Ok(value: T) | Err(error: E)

  /** One byte of a Node `Buffer` or of a canvas `Uint8ClampedArray`. */
  type Byte = b: int | 0 <= b < 256

  /**
    Index of the first element satisfying `p`, the position `Array.prototype.find`
    stops at; `None` when no element satisfies it.
  */
  function FindFirst<T>(s: seq<T>, p: T -> bool): (r: Option<nat>)
    ensures r.Some? ==> r.value < |s| && p(s[r.value])
    ensures r.Some? ==> forall j :: 0 <= j < r.value ==> !p(s[j])
    ensures r.None? <==> forall j :: 0 <= j < |s| ==> !p(s[j])
  {
    if |s| == 0 then None
    else if p(s[0]) then Some(0)
    else
      match FindFirst(s[1..], p)
      case None => None
      case Some(k) => Some(k + 1)
  }

  /** The first index satisfying `p` is what `FindFirst` returns. */
  lemma FindFirstIs<T>(s: seq<T>, p: T -> bool, k: nat)
    requires k < |s| && p(s[k])
    requires forall j :: 0 <= j < k ==> !p(s[j])
    ensures FindFirst(s, p) == Some(k)
  {
  }

  /** `f` applied to every element, in order (`Array.prototype.map`). */
  function MapSeq<A, B>(f: A -> B, s: seq<A>): (r: seq<B>)
    ensures |r| == |s|
  {
    if |s| == 0 then [] else MapSeq(f, s[..|s| - 1]) + [f(s[|s| - 1])]
  }

  /** A sequence agreeing with `f` at every position is the map of `f`. */
  lemma {:induction false} MapEach<A, B>(f: A -> B, s: seq<A>, r: seq<B>)
    requires |s| == |r|
    requires forall i :: 0 <= i < |s| ==> f(s[i]) == r[i]
    ensures MapSeq(f, s) == r
  {
    if |s| > 0 {
      var n := |s| - 1;
      forall i | 0 <= i < n
        ensures f(s[..n][i]) == r[..n][i]
      {
        assert s[..n][i] == s[i];
      }
      MapEach(f, s[..n], r[..n]);
      assert r == r[..n] + [r[n]];
    }
  }

  /** Mapping one more element appends its image. */
  lemma MapSnoc<A, B>(f: A -> B, s: seq<A>, i: nat)
    requires i < |s|
    ensures MapSeq(f, s[..i + 1]) == MapSeq(f, s[..i]) + [f(s[i])]
  {
    assert s[..i + 1][..i] == s[..i];
  }
}
