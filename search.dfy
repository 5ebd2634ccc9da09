/** The search cursor `Regex`: a restartable, pull-based sequence of
    non-overlapping matches over a private copy of a snapshot's text.

    The matching itself belongs to the `regex` crate. It is a function value
    here, a `Matcher`, of which the model assumes only what the crate
    guarantees (`Conforms`); compiling a pattern is an `Engine` that may
    refuse it. Everything the cursor does around the matcher is modelled. */
module Search {
  import opened Base
  import opened Utf8
  import opened TextSnapshot

  /** A half-open byte range `start..end` into the cursor's text. */
  datatype Range = Range(start: nat, end: nat)

  /** What `captures_at` reports: one entry per group of the pattern, group 0
      being the whole match, `None` for a group that did not participate. */
  type Captures = seq<Option<Range>>

  /** A compiled regular expression: `captures_at(text, from)`. */
  type Matcher = (seq<byte>, nat) -> Option<Captures>

  const CASE_INSENSITIVE: bv32 := 1
  const MULTILINE: bv32 := 2
  const LITERAL: bv32 := 4

  /** What `Regex::new` hands to `RegexBuilder`: the pattern, whether it is
      first passed through `regex::escape`, and the two builder switches. */
  datatype BuildOptions = BuildOptions(pattern: string, escaped: bool, caseInsensitive: bool, multiLine: bool)

  /** `RegexBuilder::build`: a matcher, or `None` when the pattern does not
      compile. */
  type Engine = BuildOptions -> Option<Matcher>

  /** Decodes the `i32` flag mask (given as its 32-bit pattern). */
  function OptionsFor(pattern: string, flags: bv32): (o: BuildOptions) {
    BuildOptions(pattern, flags & LITERAL != 0, flags & CASE_INSENSITIVE != 0, flags & MULTILINE != 0)
  }

  /** What the crate guarantees of a hit from `from` in `text`: group 0 is
      present and starts at or after `from`, every reported group lies within
      the text, and the group list fits in a `Vec`. */
  ghost predicate HitFits(text: seq<byte>, from: nat, caps: Captures) {
    && 1 <= |caps| <= ISIZE_MAX
    && caps[0].Some? && from <= caps[0].value.start
    && forall i :: 0 <= i < |caps| && caps[i].Some? ==> caps[i].value.start <= caps[i].value.end <= |text|
  }

  ghost predicate Conforms(m: Matcher) {
    forall text: seq<byte>, from: nat :: from <= |text| && m(text, from).Some? ==> HitFits(text, from, m(text, from).value)
  }

  ghost predicate EngineConforms(e: Engine) {
    forall o :: e(o).Some? ==> Conforms(e(o).value)
  }

  /** The range stored for one group: its own, or `0..0` when it did not
      participate, so that group numbers keep their positions. */
  function GroupRange(g: Option<Range>): (r: Range) {
    if g.Some? then g.value else Range(0, 0)
  }

  function GroupRanges(caps: Captures): (groups: seq<Range>) {
    seq(|caps|, i requires 0 <= i < |caps| => GroupRange(caps[i]))
  }

  /** The stored groups: at least group 0, all within a text of length `len`. */
  ghost predicate GroupsFit(groups: seq<Range>, len: nat) {
    && 1 <= |groups| <= ISIZE_MAX
    && forall i :: 0 <= i < |groups| ==> groups[i].start <= groups[i].end <= len
  }

  /** Where the next search resumes after match `m`: its end, or one byte
      further for an empty match. */
  function Advance(m: Range): (next: nat) {
    if m.start == m.end then m.end + 1 else m.end
  }

  /** The part of a cursor's state that `next` reads and writes. */
  datatype Cursor = Cursor(lastIdx: nat, captures: Option<seq<Range>>)

  /** The outcome of one `next`: the match returned and the new state. */
  datatype Step = Step(found: Option<Range>, after: Cursor)

  /** One `next` on `text` from cursor state `cur`. */
  function NextStep(inner: Matcher, text: seq<byte>, cur: Cursor): (s: Step)
    requires Conforms(inner)
    // a miss exactly when the offset is past the end or the matcher finds nothing
    ensures s.found.None? <==> cur.lastIdx > |text| || inner(text, cur.lastIdx).None?
    // a miss changes nothing, not even the captures of the previous hit
    ensures s.found.None? ==> s.after == cur
    ensures s.found.Some? ==>
      var m := s.found.value;
      var caps := inner(text, cur.lastIdx).value;
      // the match lies at or after the resume offset, within the text
      && cur.lastIdx <= m.start <= m.end <= |text|
      // group 0 is the match, every group keeps its index
      && s.after.captures == Some(GroupRanges(caps))
      && |s.after.captures.value| == |caps|
      && s.after.captures.value[0] == m
      && (forall i :: 0 <= i < |caps| ==>
            s.after.captures.value[i] == (if caps[i].Some? then caps[i].value else Range(0, 0)))
      && GroupsFit(s.after.captures.value, |text|)
      // the next search starts at or after this match's end, strictly later
      // than this one started, and never more than one byte past the text
      && m.end <= s.after.lastIdx
      && m.start < s.after.lastIdx
      && cur.lastIdx < s.after.lastIdx <= |text| + 1
      && (m.start < m.end ==> s.after.lastIdx == m.end)
      // an empty match resumes exactly one byte after it
      && (m.start == m.end ==> s.after.lastIdx == m.end + 1)
  {
    if cur.lastIdx > |text| then Step(None, cur)
    else match inner(text, cur.lastIdx)
      case None => Step(None, cur)
      case Some(caps) =>
        var m := caps[0].value;
        Step(Some(m), Cursor(Advance(m), Some(GroupRanges(caps))))
  }

  /** The whole sequence of matches that repeated `next` calls return from
      resume offset `from` until the first `None`. It is finite, ordered and
      non-overlapping. */
  ghost function Matches(inner: Matcher, text: seq<byte>, from: nat): (ms: seq<Range>)
    requires Conforms(inner)
    ensures from > |text| ==> ms == []
    ensures from <= |text| + 1 ==> |ms| <= |text| + 1 - from
    ensures forall i :: 0 <= i < |ms| ==> from <= ms[i].start <= ms[i].end <= |text|
    ensures forall i, j :: 0 <= i < j < |ms| ==> ms[i].end <= ms[j].start && ms[i].start < ms[j].start
    decreases |text| + 1 - from
  {
    var s := NextStep(inner, text, Cursor(from, None));
    if s.found.None? then []
    else [s.found.value] + Matches(inner, text, s.after.lastIdx)
  }

  /** `next` from any cursor state pulls the head of the match sequence for
      its resume offset and leaves the cursor at the start of the rest: the
      captures of an earlier match never influence what comes next, which
      makes the sequence restartable by `reset`. */
  lemma NextPullsMatches(inner: Matcher, text: seq<byte>, cur: Cursor)
    requires Conforms(inner)
    ensures var s := NextStep(inner, text, cur);
      && (s.found.None? ==> Matches(inner, text, cur.lastIdx) == [])
      && (s.found.Some? ==>
            Matches(inner, text, cur.lastIdx) == [s.found.value] + Matches(inner, text, s.after.lastIdx))
  {
    var s := NextStep(inner, text, cur);
    var t := NextStep(inner, text, Cursor(cur.lastIdx, None));
    assert s.found == t.found && (s.found.Some? ==> s.after.lastIdx == t.after.lastIdx);
  }

  /** `usize::get` on the stored groups. */
  function Get(groups: seq<Range>, index: nat): (r: Option<Range>) {
    if index < |groups| then Some(groups[index]) else None
  }

  /** `group as usize` for an `i32`: sign-extended to 64 bits. */
  function AsUsize(group: int32): (u: nat) {
    if group >= 0 then group as nat else (USIZE_MODULUS + group as int) as nat
  }

  /** `n as i32` for a `usize`: keeps the low 32 bits, read as signed. */
  function WrapToInt32(n: nat): (w: int32) {
    var low := n % 0x1_0000_0000;
    if low < 0x8000_0000 then low as int32 else (low - 0x1_0000_0000) as int32
  }

  /** `i32::saturating_sub(1)`. */
  function SaturatingDecrement(x: int32): (y: int32) {
    if x == -0x8000_0000 then x else x - 1
  }

  /** The search cursor. `inner` is the compiled pattern, `text` the private
      copy of the snapshot, `lastIdx` the resume offset and `captures` the
      groups of the most recent match, if any. */
  class Regex {
    const inner: Matcher
    var text: seq<byte>
    var lastIdx: nat
    var captures: Option<seq<Range>>

    /** The matcher behaves as the crate promises, and stored groups
        describe a match in the current text. */
    ghost predicate Valid()
      reads this
    {
      && Conforms(inner)
      && (captures.Some? ==> GroupsFit(captures.value, |text|))
    }

    constructor Init(inner: Matcher, text: seq<byte>)
      requires Conforms(inner)
      ensures Valid()
      ensures this.inner == inner && this.text == text
      ensures lastIdx == 0 && captures == None
    {
      this.inner := inner;
      this.text := text;
      lastIdx := 0;
      captures := None;
    }

    /** `Regex::new`: builds the matcher from the pattern and the flag
        mask; a pattern that does not compile is reported with ICU code 1
        (`U_ILLEGAL_ARGUMENT_ERROR`). A new cursor searches a copy of the
        snapshot's content from offset 0, with no match yet. */
    static method New(pattern: string, flags: bv32, text: Text, engine: Engine) returns (r: Result<Regex>)
      requires EngineConforms(engine)
      ensures r.Err? <==> engine(OptionsFor(pattern, flags)).None?
      ensures r.Err? ==> r.error == Icu(U_ILLEGAL_ARGUMENT_ERROR)
      ensures r.Ok? ==>
        && r.value.Valid()
        && r.value.inner == engine(OptionsFor(pattern, flags)).value
        && r.value.text == text.content
        && r.value.lastIdx == 0 && r.value.captures == None
    {
      var built := engine(OptionsFor(pattern, flags));
      if built.Some? {
        var re := new Regex.Init(built.value, text.content);
        r := Ok(re);
      } else {
        r := Err(Icu(U_ILLEGAL_ARGUMENT_ERROR));
      }
    }

    /** `set_text`: refreshes the snapshot from the buffer, takes a copy of
        its new content and restarts the search at `offset`. */
    method SetText(t: Text, tb: TextBuffer, offset: nat)
      requires Valid() && EndsAtLength(tb)
      modifies this, t
      ensures Valid()
      ensures t.content == Snapshot(tb) && text == t.content
      ensures lastIdx == offset && captures == None
    {
      t.Refresh(tb);
      text := t.content;
      Reset(offset);
    }

    /** `reset`: moves the resume offset and forgets the last match; the
        text stays as it is. */
    method Reset(offset: nat)
      requires Conforms(inner)
      modifies this`lastIdx, this`captures
      ensures Valid()
      ensures text == old(text)
      ensures lastIdx == offset && captures == None
    {
      lastIdx := offset;
      captures := None;
    }

    /** `group_count`: the number of capture groups of the last match, not
        counting group 0, and 0 when there is none. */
    function GroupCount(): (n: int32)
      reads this
      ensures captures.None? ==> n == 0
      ensures captures.Some? && |captures.value| <= 0x7FFF_FFFF ==> n as int == |captures.value| - 1
    {
      if captures.Some? then SaturatingDecrement(WrapToInt32(|captures.value|)) else 0
    }

    /** `group`: the range of group `group` of the last match; `None` when
        there is no match, and for an index past the groups or negative. */
    function Group(group: int32): (r: Option<Range>)
      reads this
      requires Valid()
      ensures captures.None? ==> r == None
      ensures captures.Some? && 0 <= group as int < |captures.value| ==> r == Some(captures.value[group])
      ensures captures.Some? && group as int >= |captures.value| ==> r == None
      ensures group < 0 ==> r == None
    {
      if captures.Some? then Get(captures.value, AsUsize(group)) else None
    }

    /** `Iterator::next`: the next match at or after the resume offset. On a
        hit the groups are recorded and the offset advances past the match;
        a miss changes nothing. */
    method Next() returns (r: Option<Range>)
      requires Valid()
      modifies this`lastIdx, this`captures
      ensures Valid()
      ensures text == old(text)
      ensures Step(r, Cursor(lastIdx, captures)) == NextStep(inner, text, Cursor(old(lastIdx), old(captures)))
      ensures r.Some? ==> Group(0) == r
    {
      if lastIdx > |text| {
        return None;
      }
      match inner(text, lastIdx)
      case Some(caps) =>
        var m := caps[0].value;
        var range := Range(m.start, m.end);
        var groups: seq<Range> := [];
        for i := 0 to |caps|
          invariant |groups| == i
          invariant forall k :: 0 <= k < i ==> groups[k] == GroupRange(caps[k])
        {
          if caps[i].Some? {
            groups := groups + [caps[i].value];
          } else {
            groups := groups + [Range(0, 0)];
          }
        }
        assert groups == GroupRanges(caps);
        captures := Some(groups);
        if range.start == range.end {
          lastIdx := range.end + 1;
        } else {
          lastIdx := range.end;
        }
        r := Some(range);
      case None =>
        r := None;
    }
  }
}
