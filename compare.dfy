/** `compare_strings`: ordinal (byte-wise lexicographic) comparison of two
    UTF-8 strings, i.e. Rust's `Ord` on `[u8]`; neither locale-aware nor
    case-insensitive. */
module Compare {
  import opened Base

  datatype Ordering = Less | Equal | Greater

  /** The ordering with its two sides exchanged. */
  function Flip(o: Ordering): (f: Ordering) {
    match o
    case Less => Greater
    case Equal => Equal
    case Greater => Less
  }

  /** `compare_strings(a, b)`: the first differing byte decides; when one
      string is a prefix of the other, the shorter one is smaller. */
  function CompareStrings(a: seq<byte>, b: seq<byte>): (o: Ordering)
    decreases |a|
  {
    if a == [] then (if b == [] then Equal else Less)
    else if b == [] then Greater
    else if a[0] < b[0] then Less
    else if a[0] > b[0] then Greater
    else CompareStrings(a[1..], b[1..])
  }

  /** Independent definition of "a sorts strictly before b": after a common
      prefix of length k, either `a` ends while `b` goes on, or `a`'s next
      byte is the smaller one. */
  ghost predicate LexLess(a: seq<byte>, b: seq<byte>) {
    exists k :: 0 <= k <= |a| && k < |b| && a[..k] == b[..k] && (k == |a| || a[k] < b[k])
  }

  /** `Equal` is returned exactly for equal strings. */
  lemma {:induction false} CompareEqualIff(a: seq<byte>, b: seq<byte>)
    ensures CompareStrings(a, b) == Equal <==> a == b
    decreases |a|
  {
    if a != [] && b != [] && a[0] == b[0] {
      CompareEqualIff(a[1..], b[1..]);
      if a[1..] == b[1..] {
        assert a == [a[0]] + a[1..] && b == [b[0]] + b[1..];
      }
    }
  }

  /** Exchanging the arguments reverses the result. */
  lemma {:induction false} CompareSwap(a: seq<byte>, b: seq<byte>)
    ensures CompareStrings(b, a) == Flip(CompareStrings(a, b))
    decreases |a|
  {
    if a != [] && b != [] && a[0] == b[0] {
      CompareSwap(a[1..], b[1..]);
    }
  }

  /** `Less` is transitive. */
  lemma {:induction false} CompareTransitive(a: seq<byte>, b: seq<byte>, c: seq<byte>)
    requires CompareStrings(a, b) == Less && CompareStrings(b, c) == Less
    ensures CompareStrings(a, c) == Less
    decreases |a|
  {
    if a != [] && a[0] == b[0] && b[0] == c[0] {
      CompareTransitive(a[1..], b[1..], c[1..]);
    }
  }

  /** `Less` is returned exactly when `a` sorts before `b` lexicographically. */
  lemma {:induction false} CompareLessIff(a: seq<byte>, b: seq<byte>)
    ensures CompareStrings(a, b) == Less <==> LexLess(a, b)
    decreases |a|
  {
    if a == [] || b == [] || a[0] != b[0] {
      if CompareStrings(a, b) == Less {
        assert a[..0] == b[..0];
      }
      if LexLess(a, b) {
        var k :| 0 <= k <= |a| && k < |b| && a[..k] == b[..k] && (k == |a| || a[k] < b[k]);
        if k > 0 {
          assert a[..k][0] == b[..k][0];
        }
      }
    } else {
      CompareLessIff(a[1..], b[1..]);
      if LexLess(a[1..], b[1..]) {
        var k :| 0 <= k <= |a[1..]| && k < |b[1..]| && a[1..][..k] == b[1..][..k]
          && (k == |a[1..]| || a[1..][k] < b[1..][k]);
        assert a[..k + 1] == [a[0]] + a[1..][..k];
        assert b[..k + 1] == [b[0]] + b[1..][..k];
        assert LexLess(a, b);
      }
      if LexLess(a, b) {
        var k :| 0 <= k <= |a| && k < |b| && a[..k] == b[..k] && (k == |a| || a[k] < b[k]);
        assert k > 0;
        assert a[1..][..k - 1] == a[1..k] == a[..k][1..];
        assert b[1..][..k - 1] == b[1..k] == b[..k][1..];
        assert LexLess(a[1..], b[1..]);
      }
    }
  }
}
