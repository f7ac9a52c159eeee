/**
 * A figure image (the `Skylander` class) and a portal slot (the `Slot` class).
 *
 * The image is the whole content of a figure's backing file, held in memory and
 * addressed in 16-byte blocks. Reads and writes use Python's slice semantics, so
 * nothing is bounds-checked: a read at the end is short or empty, and a write
 * splices its block in, which changes the length whenever the block is not
 * exactly the bytes it replaces.
 */
module Figures {
  import opened Bytes

  const BlockSize: nat := 0x10

  /** The portal's slot table has this many entries, indexed from 0. */
  const SlotCount: nat := 16

  /** The value of a loaded figure: the path it was loaded from and its bytes. */
  datatype FigureImage = FigureImage(path: string, data: seq<byte>)

  /** Block `index` of `data`: the 16 bytes from offset `16 * index`, clipped at the end. */
  function BlockAt(data: seq<byte>, index: nat): (r: seq<byte>)
    ensures |r| == Min(BlockSize, Max(0, |data| - BlockSize * index))
    ensures forall k :: 0 <= k < |r| ==> r[k] == data[BlockSize * index + k]
  {
    var offset := index * BlockSize;
    Slice(data, offset, offset + BlockSize)
  }

  /** `data` after writing `block` at block `index`: the bytes before the
      block's offset, then `block`, then what follows the bytes it covers. */
  function Spliced(data: seq<byte>, index: nat, block: seq<byte>): (r: seq<byte>)
    ensures var lo, hi := Min(BlockSize * index, |data|), Min(BlockSize * index + |block|, |data|);
      && |r| == |data| - (hi - lo) + |block|
      && r[..lo] == data[..lo]
      && r[lo..lo + |block|] == block
      && r[lo + |block|..] == data[hi..]
  {
    var offset := index * BlockSize;
    Slice(data, 0, offset) + block + Drop(data, offset + |block|)
  }

  /** Writing a full block inside the image and reading it back gives the block. */
  lemma WriteThenRead(data: seq<byte>, index: nat, block: seq<byte>)
    requires BlockSize * index + BlockSize <= |data|
    requires |block| == BlockSize
    ensures BlockAt(Spliced(data, index, block), index) == block
  {
    var r := Spliced(data, index, block);
    var offset := BlockSize * index;
    assert r[offset..offset + BlockSize] == block;
  }

  /** A block that lies within the image leaves its length unchanged. */
  lemma InBoundsWriteKeepsLength(data: seq<byte>, index: nat, block: seq<byte>)
    requires BlockSize * index + |block| <= |data|
    ensures |Spliced(data, index, block)| == |data|
  {}

  /** A full block written inside the image changes no byte outside it. */
  lemma WriteKeepsOtherBytes(data: seq<byte>, index: nat, block: seq<byte>, k: nat)
    requires BlockSize * index + BlockSize <= |data|
    requires |block| == BlockSize
    requires k < |data| && (k < BlockSize * index || BlockSize * index + BlockSize <= k)
    ensures |Spliced(data, index, block)| == |data|
    ensures Spliced(data, index, block)[k] == data[k]
  {
    var r := Spliced(data, index, block);
    var offset := BlockSize * index;
    if k < offset {
      assert r[k] == r[..offset][k];
    } else {
      assert r[k] == r[offset + BlockSize..][k - offset - BlockSize];
    }
  }

  /** Writing a full block inside the image leaves every other block as it was. */
  lemma WriteKeepsOtherBlocks(data: seq<byte>, index: nat, block: seq<byte>, other: nat)
    requires BlockSize * index + BlockSize <= |data|
    requires |block| == BlockSize
    requires other != index
    ensures BlockAt(Spliced(data, index, block), other) == BlockAt(data, other)
  {
    var r := Spliced(data, index, block);
    InBoundsWriteKeepsLength(data, index, block);
    var start := BlockSize * other;
    if other < index {
      assert start + BlockSize <= BlockSize * index by {
        assert BlockSize * index == BlockSize * other + BlockSize * (index - other);
      }
    } else {
      assert BlockSize * index + BlockSize <= start by {
        assert start == BlockSize * index + BlockSize * (other - index);
      }
    }
    var a, b := BlockAt(r, other), BlockAt(data, other);
    forall k | 0 <= k < |a|
      ensures a[k] == b[k]
    {
      WriteKeepsOtherBytes(data, index, block, start + k);
    }
  }

  /** A write whose offset is at or past the end appends the block instead of
      placing it at `16 * index`. */
  lemma WritePastEndAppends(data: seq<byte>, index: nat, block: seq<byte>)
    requires BlockSize * index >= |data|
    ensures Spliced(data, index, block) == data + block
  {
    var r := Spliced(data, index, block);
    assert r == r[..|data|] + r[|data|..];
  }

  /** A read at or past the end is empty rather than an error. */
  lemma ReadPastEndIsEmpty(data: seq<byte>, index: nat)
    requires BlockSize * index >= |data|
    ensures BlockAt(data, index) == []
  {}

  /** An in-memory figure (`Skylander`): its backing path and its bytes. */
  class Skylander {
    var path: string
    var data: seq<byte>

    /** `Skylander(path)`: the path setter reads the whole file; what the file
        holds is given as `contents`. */
    constructor (path: string, contents: seq<byte>)
      ensures this.path == path && data == contents
    {
      this.path := path;
      data := contents;
    }

    /** `readBlock`: a slice of the current bytes, at most one block long and
        short only where the image ends. */
    function ReadBlock(index: nat): (r: seq<byte>)
      reads this
      ensures |r| <= BlockSize
      ensures BlockSize * index + BlockSize <= |data| ==> r == data[BlockSize * index..BlockSize * index + BlockSize]
      ensures BlockSize * index < |data| < BlockSize * index + BlockSize ==> r == data[BlockSize * index..]
      ensures BlockSize * index >= |data| ==> r == []
    {
      BlockAt(data, index)
    }

    /** `writeBlock`: splices `block` into the bytes; the path stays. */
    method WriteBlock(index: nat, block: seq<byte>)
      modifies this
      ensures data == Spliced(old(data), index, block)
      ensures path == old(path)
    {
      var offset := index * BlockSize;
      data := Slice(data, 0, offset) + block + Drop(data, offset + |block|);
    }

    /** `save`: the file at `path` is overwritten with the whole buffer and no
        other file changes. */
    method Save(files: map<string, seq<byte>>) returns (written: map<string, seq<byte>>)
      ensures written == files[path := data]
    {
      written := files[path := data];
    }
  }

  /** A portal slot: an optional figure and a presentation flag. */
  class Slot {
    var skylander: Skylander?
    var active: bool

    /** `Slot()`: no figure, not active. */
    constructor ()
      ensures skylander == null && !active
    {
      skylander := null;
      active := false;
    }
  }
}
