/** Small value types shared by every module: optional values, results with an
    error, the three-way ordering that Rust's `Ord::cmp` returns, and
    `Iterator::filter_map` on sequences. */
module Prelude {

  /** An octet. */
  type Byte = b: int | 0 <= b < 256

  datatype Option<+T> = None | Some(value: T)

  datatype Result<+T, +E> = Ok(value: T) | Err(error: E)

  /** `std::cmp::Ordering`. */
  datatype Ordering = Less | Equal | Greater {
    /** `Ordering::reverse`. */
    function Flip(): (r: Ordering)
      ensures (r == Equal) == (this == Equal)
    {
      match this
      case Less => Greater
      case Equal => Equal
      case Greater => Less
    }
  }

  /** `Ord::cmp` on integers. */
  function IntCmp(x: int, y: int): (r: Ordering)
    ensures r == Less <==> x < y
    ensures r == Equal <==> x == y
    ensures r == Greater <==> x > y
  {
    if x < y then Less else if x == y then Equal else Greater
  }

  /** `Ord::cmp` on characters (by scalar value). */
  function CharCmp(a: char, b: char): (r: Ordering)
    ensures r == Equal <==> a == b
    ensures r == Less <==> (a as int) < (b as int)
  {
    IntCmp(a as int, b as int)
  }

  /** `filter_map`: the values `f` gives, in order, skipping `None`. */
  function Collect<A, B>(f: A -> Option<B>, s: seq<A>): seq<B> {
    if s == [] then []
    else
      var front := Collect(f, s[..|s| - 1]);
      match f(s[|s| - 1])
      case None => front
      case Some(b) => front + [b]
  }

  /** Collecting one more element: its value, if any, is appended. */
  lemma CollectNext<A, B>(f: A -> Option<B>, s: seq<A>, i: nat, before: seq<B>, after: seq<B>)
    requires i < |s| && before == Collect(f, s[..i])
    requires f(s[i]).None? ==> after == before
    requires f(s[i]).Some? ==> after == before + [f(s[i]).value]
    ensures after == Collect(f, s[..i + 1])
  {
    assert s[..i + 1][..i] == s[..i];
  }

  /** A value is collected exactly when some element gives it. */
  lemma {:induction false} CollectMembership<A, B>(f: A -> Option<B>, s: seq<A>, b: B)
    ensures b in Collect(f, s) <==> exists k :: 0 <= k < |s| && f(s[k]) == Some(b)
    decreases |s|
  {
    if s != [] {
      var n := |s|;
      var front := s[..n - 1];
      CollectMembership(f, front, b);
      if b in Collect(f, front) {
        var k :| 0 <= k < |front| && f(front[k]) == Some(b);
        assert s[k] == front[k];
      }
      if exists k :: 0 <= k < |s| && f(s[k]) == Some(b) {
        var k :| 0 <= k < |s| && f(s[k]) == Some(b);
        if k < n - 1 {
          assert front[k] == s[k];
        }
      }
    }
  }
}
