/** Small shared vocabulary: Python's `None` as an explicit optional value, and spaced times. */
module Common {

  datatype Option<T> = None | Some(value: T)

  /** Moving one element from the head of a suffix to the end of a prefix. */
  lemma AppendShift<T>(s: seq<T>, x: T, t: seq<T>)
    requires |s| >= 1
    ensures s[1..] + ([x] + t) == (s + [x])[1..] + t
  {
    assert (s + [x])[1..] == s[1..] + [x];
  }

  /** Consecutive times are at least `gap` apart. */
  predicate Spaced(times: seq<real>, gap: real)
  {
    forall k :: 0 < k < |times| ==> times[k - 1] + gap <= times[k]
  }

  lemma SpacedConcat(h: seq<real>, t: seq<real>, gap: real)
    requires Spaced(h, gap) && Spaced(t, gap)
    requires h != [] && t != [] ==> h[|h| - 1] + gap <= t[0]
    ensures Spaced(h + t, gap)
  {
  }
}
