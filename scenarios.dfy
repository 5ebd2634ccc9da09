/** Two small conforming matchers, for the patterns `c*` and `c+` over a
    single byte `c`, and the match sequences the cursor produces with them
    on the documented examples. */
module Scenarios {
  import opened Base
  import opened Search

  const A: byte := 0x61  // 'a'
  const B: byte := 0x62  // 'b'

  /** Length of the run of byte `c` that starts at `p`. */
  function RunLength(text: seq<byte>, c: byte, p: nat): (n: nat)
    ensures p <= |text| ==> p + n <= |text|
    ensures forall k :: p <= k < p + n ==> k < |text| && text[k] == c
    ensures p + n < |text| ==> text[p + n] != c
    decreases |text| - p
  {
    if p < |text| && text[p] == c then 1 + RunLength(text, c, p + 1) else 0
  }

  /** The first position at or after `p` holding `c`. */
  function FirstAt(text: seq<byte>, c: byte, p: nat): (r: Option<nat>)
    ensures r.Some? ==> p <= r.value < |text| && text[r.value] == c
    ensures r.None? ==> forall k :: p <= k < |text| ==> text[k] != c
    decreases |text| - p
  {
    if p >= |text| then None
    else if text[p] == c then Some(p)
    else FirstAt(text, c, p + 1)
  }

  /** `c*`: matches at the resume offset itself, greedily. */
  function StarOf(c: byte): (m: Matcher) {
    (text: seq<byte>, from: nat) =>
      if from <= |text| then Some([Some(Range(from, from + RunLength(text, c, from)))]) else None
  }

  /** `c+`: the leftmost run of `c` at or after the resume offset. */
  function PlusOf(c: byte): (m: Matcher) {
    (text: seq<byte>, from: nat) =>
      var p := FirstAt(text, c, from);
      if p.Some? then Some([Some(Range(p.value, p.value + RunLength(text, c, p.value)))]) else None
  }

  lemma StarConforms(c: byte)
    ensures Conforms(StarOf(c))
  {
  }

  lemma PlusConforms(c: byte)
    ensures Conforms(PlusOf(c))
  {
  }

  /** `a*` over "ba": an empty match at 0, then "a" at 1..2, then an empty
      match at 2; each empty match moves the search one byte on, and no
      offset is reported twice. */
  lemma ZeroWidthMatchesAdvance()
    ensures Conforms(StarOf(A)) && Matches(StarOf(A), [B, A], 0) == [Range(0, 0), Range(1, 2), Range(2, 2)]
  {
    StarConforms(A);
    var m := StarOf(A);
    var t: seq<byte> := [B, A];
    assert RunLength(t, A, 0) == 0;
    assert RunLength(t, A, 2) == 0;
    assert RunLength(t, A, 1) == 1;
    assert Matches(m, t, 3) == [];
    assert Matches(m, t, 2) == [Range(2, 2)] + Matches(m, t, 3);
    assert Matches(m, t, 1) == [Range(1, 2)] + Matches(m, t, 2);
    assert Matches(m, t, 0) == [Range(0, 0)] + Matches(m, t, 1);
  }

  /** `a+` over "baaab": one match, 1..4, then the end of the sequence. */
  lemma PlusMatchesOnce()
    ensures Conforms(PlusOf(A)) && Matches(PlusOf(A), [B, A, A, A, B], 0) == [Range(1, 4)]
  {
    PlusConforms(A);
    var m := PlusOf(A);
    var t: seq<byte> := [B, A, A, A, B];
    assert FirstAt(t, A, 0) == Some(1);
    assert FirstAt(t, A, 4) == None;
    assert RunLength(t, A, 4) == 0;
    assert RunLength(t, A, 1) == 3;
    assert Matches(m, t, 4) == [];
    assert Matches(m, t, 0) == [Range(1, 4)] + Matches(m, t, 4);
  }

  /** A client of the cursor: pulling `a*` matches from "ba", exhausting
      them, and restarting with `reset(0)` gives the same first match. */
  method PullZeroWidthMatches()
  {
    StarConforms(A);
    var re := new Regex.Init(StarOf(A), [B, A]);
    assert RunLength([B, A], A, 0) == 0;
    var r := re.Next();
    assert r == Some(Range(0, 0)) && re.lastIdx == 1;
    assert re.GroupCount() == 0 && re.Group(0) == r && re.Group(1) == None;
    assert RunLength([B, A], A, 1) == 1;
    r := re.Next();
    assert r == Some(Range(1, 2)) && re.lastIdx == 2;
    assert RunLength([B, A], A, 2) == 0;
    r := re.Next();
    assert r == Some(Range(2, 2)) && re.lastIdx == 3;
    r := re.Next();
    assert r == None && re.lastIdx == 3 && re.Group(0) == Some(Range(2, 2));
    re.Reset(0);
    assert re.Group(0) == None;
    r := re.Next();
    assert r == Some(Range(0, 0));
  }
}
