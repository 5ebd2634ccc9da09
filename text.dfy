/** `Text`: a point-in-time copy of a document buffer's bytes, rebuilt by
    `refresh` from the buffer's forward reads. */
module TextSnapshot {
  import opened Base
  import opened Utf8

  /** The two operations of the editor's `TextBuffer` that a snapshot uses:
      its total length (a capacity hint) and `read_forward(offset)`, which
      returns the contiguous bytes stored from `offset` on, an empty chunk
      meaning the end. The buffer is passed in by value at each refresh. */
  datatype TextBuffer = TextBuffer(length: nat, readForward: nat -> seq<byte>)

  /** What a caller of `refresh` must guarantee for the read loop to end:
      the buffer answers with an empty chunk once the offset reaches its
      length. */
  ghost predicate EndsAtLength(tb: TextBuffer) {
    forall off: nat :: tb.length <= off ==> tb.readForward(off) == []
  }

  /** The buffer presents the document `data`: each read returns a
      non-empty piece of `data` starting at the offset, until the end. */
  ghost predicate Presents(tb: TextBuffer, data: seq<byte>) {
    && EndsAtLength(tb)
    && tb.length == |data|
    && forall off: nat :: off < |data| ==>
         && 0 < |tb.readForward(off)| <= |data| - off
         && tb.readForward(off) == data[off..off + |tb.readForward(off)|]
  }

  /** The chunks `read_forward` returns at `offset`, then at each offset
      advanced by the chunk length, up to (excluding) the first empty one. */
  function Chunks(tb: TextBuffer, offset: nat): (cs: seq<seq<byte>>)
    requires EndsAtLength(tb)
    decreases tb.length - offset
  {
    var chunk := tb.readForward(offset);
    if chunk == [] then [] else [chunk] + Chunks(tb, offset + |chunk|)
  }

  /** Each chunk decoded on its own, concatenated. */
  function Decoded(cs: seq<seq<byte>>): (s: seq<byte>) {
    if cs == [] then [] else Lossy(cs[0]) + Decoded(cs[1..])
  }

  /** The chunks concatenated as bytes. */
  function Flatten(cs: seq<seq<byte>>): (s: seq<byte>) {
    if cs == [] then [] else cs[0] + Flatten(cs[1..])
  }

  /** The content a refresh produces from the buffer in its current state. */
  function Snapshot(tb: TextBuffer): (content: seq<byte>)
    requires EndsAtLength(tb)
  {
    Decoded(Chunks(tb, 0))
  }

  /** One turn of the read loop: a non-empty read comes from below the
      length, and appending its decoding to the content so far keeps the
      content plus the decoding of what is still to be read unchanged. */
  lemma ChunksStep(tb: TextBuffer, offset: nat, acc: seq<byte>)
    requires EndsAtLength(tb) && tb.readForward(offset) != []
    ensures offset < tb.length
    ensures (acc + Lossy(tb.readForward(offset))) + Decoded(Chunks(tb, offset + |tb.readForward(offset)|))
      == acc + Decoded(Chunks(tb, offset))
  {
    var chunk := tb.readForward(offset);
    var rest := Chunks(tb, offset + |chunk|);
    assert Chunks(tb, offset) == [chunk] + rest;
    assert ([chunk] + rest)[1..] == rest;
  }

  /** Decoding chunk by chunk always gives well-formed UTF-8. */
  lemma {:induction false} DecodedIsValid(cs: seq<seq<byte>>)
    ensures ValidUtf8(Decoded(cs))
  {
    if cs != [] {
      LossyIsValid(cs[0]);
      DecodedIsValid(cs[1..]);
      ValidAppend(Lossy(cs[0]), Decoded(cs[1..]));
    }
  }

  /** When every chunk is well-formed on its own, decoding changes nothing. */
  lemma {:induction false} DecodedOfValidChunks(cs: seq<seq<byte>>)
    requires forall i :: 0 <= i < |cs| ==> ValidUtf8(cs[i])
    ensures Decoded(cs) == Flatten(cs)
  {
    if cs != [] {
      LossyKeepsValid(cs[0]);
      DecodedOfValidChunks(cs[1..]);
    }
  }

  /** A buffer that presents `data` is read out completely, in order. */
  lemma {:induction false} ChunksSpellData(tb: TextBuffer, data: seq<byte>, offset: nat)
    requires Presents(tb, data) && offset <= |data|
    ensures Flatten(Chunks(tb, offset)) == data[offset..]
    decreases |data| - offset
  {
    var chunk := tb.readForward(offset);
    if offset < |data| {
      ChunksSpellData(tb, data, offset + |chunk|);
      assert data[offset..] == chunk + data[offset + |chunk|..];
    }
  }

  /** The snapshot of a buffer that presents a document whose chunks are
      each well-formed UTF-8 is exactly that document. */
  lemma SnapshotOfValidDocument(tb: TextBuffer, data: seq<byte>)
    requires Presents(tb, data)
    requires forall off: nat :: off < |data| ==> ValidUtf8(tb.readForward(off))
    ensures Snapshot(tb) == data
  {
    ChunksValid(tb, 0);
    DecodedOfValidChunks(Chunks(tb, 0));
    ChunksSpellData(tb, data, 0);
  }

  /** When every read below the length is well-formed, so is every chunk. */
  lemma {:induction false} ChunksValid(tb: TextBuffer, offset: nat)
    requires EndsAtLength(tb)
    requires forall off: nat :: off < tb.length ==> ValidUtf8(tb.readForward(off))
    ensures forall i :: 0 <= i < |Chunks(tb, offset)| ==> ValidUtf8(Chunks(tb, offset)[i])
    decreases tb.length - offset
  {
    var chunk := tb.readForward(offset);
    if chunk != [] {
      ChunksValid(tb, offset + |chunk|);
      assert Chunks(tb, offset) == [chunk] + Chunks(tb, offset + |chunk|);
    }
  }

  /** Chunks are decoded separately, so a code point that a read splits in
      two comes out as two replacement characters even though the document
      itself is well-formed: here "é" (C3 A9) read one byte at a time. */
  lemma SplitCodePointIsReplaced()
    ensures var data: seq<byte> := [0xC3, 0xA9];
      var tb := TextBuffer(2, (off: nat) => if off == 0 then [0xC3 as byte] else if off == 1 then [0xA9 as byte] else []);
      && ValidUtf8(data)
      && Presents(tb, data)
      && Snapshot(tb) == REPLACEMENT + REPLACEMENT
  {
    var data: seq<byte> := [0xC3, 0xA9];
    var tb := TextBuffer(2, (off: nat) => if off == 0 then [0xC3 as byte] else if off == 1 then [0xA9 as byte] else []);
    assert data[2..] == [];
    assert StartsWell(data);
    assert Chunks(tb, 2) == [];
    assert Chunks(tb, 1) == [[0xA9]];
    assert Chunks(tb, 0) == [[0xC3], [0xA9]];
    assert [0xC3 as byte][1..] == [] && [0xA9 as byte][1..] == [];
    assert Lossy([0xC3]) == REPLACEMENT;
    assert Lossy([0xA9]) == REPLACEMENT;
  }

  /** `Text`: the owned content of a snapshot. The non-owning pointer to the
      buffer is replaced by the buffer value passed to each refresh. */
  class Text {
    var content: seq<byte>

    /** `Text::new`: captures the buffer and performs an initial refresh. */
    constructor (tb: TextBuffer)
      requires EndsAtLength(tb)
      ensures content == Snapshot(tb)
      ensures ValidUtf8(content)
    {
      content := [];
      new;
      Refresh(tb);
    }

    /** `Text::refresh`: discards the old content, then reads the buffer
        forward from offset 0, appending each chunk decoded lossily, until
        a read returns an empty chunk. */
    method Refresh(tb: TextBuffer)
      requires EndsAtLength(tb)
      modifies this
      ensures content == Snapshot(tb)
      ensures ValidUtf8(content)
    {
      content := [];
      var offset: nat := 0;
      while true
        invariant content + Decoded(Chunks(tb, offset)) == Snapshot(tb)
        decreases tb.length - offset
      {
        var chunk := tb.readForward(offset);
        if chunk == [] {
          break;
        }
        ChunksStep(tb, offset, content);
        content := content + Lossy(chunk);
        offset := offset + |chunk|;
      }
      DecodedIsValid(Chunks(tb, 0));
    }
  }
}
