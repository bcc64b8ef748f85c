/** Optional values and the splitting of a repository path into its `/`-separated segments. */
module Paths {

  /** An optional value: JavaScript's `undefined` is `None`. */
  datatype Option<T> = None | Some(value: T) {
    /** The value, or `default` when absent (JavaScript's `??`). */
    function GetOr(default: T): (r: T)
      ensures Some? ==> r == value
      ensures None? ==> r == default
    {
      match this
      case Some(v) => v
      case None => default
    }
  }

  const Separator: char := '/'

  /** The segments joined back together with the separator between each pair. */
  function Join(parts: seq<string>): string
    requires |parts| >= 1
  {
    if |parts| == 1 then parts[0] else parts[0] + [Separator] + Join(parts[1..])
  }

  /**
   * `s.split('/')` in JavaScript: every separator ends a segment, so the result is never empty,
   * an empty string yields one empty segment, and a doubled separator yields an empty segment.
   */
  function Split(s: string): (parts: seq<string>)
    ensures |parts| >= 1
    ensures forall k :: 0 <= k < |parts| ==> Separator !in parts[k]
    ensures Join(parts) == s
  {
    if s == [] then [""]
    else if s[0] == Separator then
      var rest := Split(s[1..]);
      assert [s[0]] + s[1..] == s;
      [""] + rest
    else
      var rest := Split(s[1..]);
      var parts := [[s[0]] + rest[0]] + rest[1..];
      assert parts[1..] == rest[1..];
      assert Join(parts) == s by {
        if |rest| == 1 {
          assert [s[0]] + s[1..] == s;
        } else {
          assert Join(rest) == rest[0] + [Separator] + Join(rest[1..]);
          assert s == [s[0]] + rest[0] + [Separator] + Join(rest[1..]);
        }
      }
      parts
  }

  /** Splitting undoes joining whenever no segment contains the separator. */
  lemma {:induction false} SplitJoin(parts: seq<string>)
    requires |parts| >= 1
    requires forall k :: 0 <= k < |parts| ==> Separator !in parts[k]
    ensures Split(Join(parts)) == parts
  {
    if |parts| == 1 {
      SplitSegment(parts[0]);
    } else {
      SplitJoin(parts[1..]);
      SplitPrefix(parts[0], Join(parts[1..]));
    }
  }

  /** A string without separators is a single segment. */
  lemma {:induction false} SplitSegment(w: string)
    requires Separator !in w
    ensures Split(w) == [w]
  {
    if w != [] {
      SplitSegment(w[1..]);
    }
  }

  /** A separator-free word followed by a separator contributes exactly one leading segment. */
  lemma {:induction false} SplitPrefix(w: string, tail: string)
    requires Separator !in w
    ensures Split(w + [Separator] + tail) == [w] + Split(tail)
  {
    if w == [] {
      assert w + [Separator] + tail == [Separator] + tail;
      assert ([Separator] + tail)[1..] == tail;
    } else {
      assert (w + [Separator] + tail)[1..] == w[1..] + [Separator] + tail;
      SplitPrefix(w[1..], tail);
      assert [w[0]] + w[1..] == w;
    }
  }

  /** The last segment of a non-empty segment list. */
  function Last(parts: seq<string>): string
    requires |parts| >= 1
  {
    parts[|parts| - 1]
  }
}
