/** Lossy UTF-8 decoding (`String::from_utf8_lossy`) on byte strings.

    A byte string is decoded one sequence at a time following Table 3-7
    ("Well-Formed UTF-8 Byte Sequences") of the Unicode Standard, section 3.9.
    A well-formed sequence is kept as it is; an ill-formed one is replaced by
    U+REPLACEMENT CHARACTER (EF BF BD), one replacement per maximal subpart,
    which is the substitution practice the Rust standard library follows. */
module Utf8 {
  import opened Base

  /** U+FFFD encoded in UTF-8. */
  const REPLACEMENT: seq<byte> := [0xEF, 0xBF, 0xBD]

  predicate IsContinuation(b: byte) {
    0x80 <= b <= 0xBF
  }

  /** Length of the well-formed sequence that `lead` opens, or 0 when no
      well-formed sequence starts with `lead` (80..C1 and F5..FF). */
  function Width(lead: byte): (w: nat) {
    if lead <= 0x7F then 1
    else if 0xC2 <= lead <= 0xDF then 2
    else if 0xE0 <= lead <= 0xEF then 3
    else if 0xF0 <= lead <= 0xF4 then 4
    else 0
  }

  /** Bounds of the second byte after `lead` (narrower after E0, ED, F0 and
      F4, which excludes overlong forms, surrogates and values past U+10FFFF). */
  function SecondLow(lead: byte): (b: byte) {
    if lead == 0xE0 then 0xA0 else if lead == 0xF0 then 0x90 else 0x80
  }

  function SecondHigh(lead: byte): (b: byte) {
    if lead == 0xED then 0x9F else if lead == 0xF4 then 0x8F else 0xBF
  }

  /** How many leading bytes of `s` agree with some well-formed sequence:
      `Width(s[0])` when the first sequence is complete, otherwise the
      length of its maximal subpart (0 for a byte that cannot start one). */
  function Agreed(s: seq<byte>): (k: nat)
    requires s != []
    ensures k <= Width(s[0]) && k <= |s|
    ensures Width(s[0]) > 0 ==> 1 <= k
  {
    var w := Width(s[0]);
    if w <= 1 then w
    else if |s| < 2 || !(SecondLow(s[0]) <= s[1] <= SecondHigh(s[0])) then 1
    else if w == 2 || |s| < 3 || !IsContinuation(s[2]) then 2
    else if w == 3 || |s| < 4 || !IsContinuation(s[3]) then 3
    else 4
  }

  /** `s` opens with a complete, well-formed sequence. */
  predicate StartsWell(s: seq<byte>) {
    s != [] && Width(s[0]) > 0 && Agreed(s) == Width(s[0])
  }

  /** Bytes consumed by one decoding step: the well-formed sequence, or the
      maximal subpart of an ill-formed one (at least one byte). */
  function Skip(s: seq<byte>): (n: nat)
    requires s != []
    ensures 1 <= n <= |s|
  {
    if StartsWell(s) then Width(s[0])
    else if Agreed(s) == 0 then 1
    else Agreed(s)
  }

  /** `s` is well-formed UTF-8. */
  predicate ValidUtf8(s: seq<byte>)
    decreases |s|
  {
    s == [] || (StartsWell(s) && ValidUtf8(s[Width(s[0])..]))
  }

  /** `String::from_utf8_lossy`, as bytes. */
  function Lossy(s: seq<byte>): (r: seq<byte>)
    decreases |s|
  {
    if s == [] then []
    else (if StartsWell(s) then s[..Width(s[0])] else REPLACEMENT) + Lossy(s[Skip(s)..])
  }

  /** Whether a string opens with a complete sequence depends only on the
      bytes of that sequence. */
  lemma StartsWellOnFront(s: seq<byte>, t: seq<byte>)
    requires StartsWell(s)
    requires |t| >= Width(s[0]) && t[..Width(s[0])] == s[..Width(s[0])]
    ensures StartsWell(t) && Width(t[0]) == Width(s[0])
  {
    var w := Width(s[0]);
    forall i | 0 <= i < w
      ensures t[i] == s[i]
    {
      assert t[i] == t[..w][i];
      assert s[i] == s[..w][i];
    }
  }

  /** Well-formed strings are closed under concatenation. */
  lemma {:induction false} ValidAppend(a: seq<byte>, b: seq<byte>)
    requires ValidUtf8(a) && ValidUtf8(b)
    ensures ValidUtf8(a + b)
    decreases |a|
  {
    if a != [] {
      var w := Width(a[0]);
      assert (a + b)[..w] == a[..w];
      StartsWellOnFront(a, a + b);
      ValidAppend(a[w..], b);
      assert (a + b)[w..] == a[w..] + b;
    } else {
      assert a + b == b;
    }
  }

  lemma ReplacementIsValid()
    ensures ValidUtf8(REPLACEMENT)
  {
    assert StartsWell(REPLACEMENT);
    assert REPLACEMENT[3..] == [];
  }

  /** Decoding leaves well-formed UTF-8 untouched. */
  lemma {:induction false} LossyKeepsValid(s: seq<byte>)
    requires ValidUtf8(s)
    ensures Lossy(s) == s
    decreases |s|
  {
    if s != [] {
      var w := Width(s[0]);
      LossyKeepsValid(s[w..]);
      assert s[..w] + s[w..] == s;
    }
  }

  /** Whatever the input, the decoded string is well-formed UTF-8. */
  lemma {:induction false} LossyIsValid(s: seq<byte>)
    ensures ValidUtf8(Lossy(s))
    decreases |s|
  {
    if s != [] {
      LossyIsValid(s[Skip(s)..]);
      if StartsWell(s) {
        var w := Width(s[0]);
        StartsWellOnFront(s, s[..w]);
        assert s[..w][w..] == [];
        ValidAppend(s[..w], Lossy(s[w..]));
      } else {
        ReplacementIsValid();
        ValidAppend(REPLACEMENT, Lossy(s[Skip(s)..]));
      }
    }
  }
}
