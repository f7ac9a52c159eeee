/**
 * The portal's command protocol: the vendor commands that arrive as the payload
 * of a SET_CONFIGURATION request, the frames the device answers with, and the
 * status frame it sends whenever the host polls the interrupt IN endpoint.
 *
 * The dispatcher is stated on values: the device's `active` flag and the
 * 16-entry slot table, each entry an optional loaded figure. A request ends in
 * exactly one of four ways: a frame sent on endpoint 1 and then an ack, an ack
 * alone, a stall, or a Python exception raised out of the handler (no ack, no
 * stall, no frame).
 */
module Protocol {
  import opened Bytes
  import opened Wrappers
  import opened Figures

  const FrameSize: nat := 0x20

  const TagA: byte := 0x41  // 'A'
  const TagC: byte := 0x43  // 'C'
  const TagQ: byte := 0x51  // 'Q'
  const TagR: byte := 0x52  // 'R'
  const TagS: byte := 0x53  // 'S'
  const TagW: byte := 0x57  // 'W'

  /** The constant the reset command answers with, packed big-endian. */
  const ResetWord: int := 0x020a0302
  /** The constant the activate command answers with, packed big-endian. */
  const ActivateWord: int := 0xff77

  /** Why the handler raised instead of answering. */
  datatype Fault =
    | PayloadTooShort  // IndexError: a payload byte the command reads is missing
    | SlotOutOfRange   // IndexError: the selector named slot 16 of a 16-entry table
    | SlotEmpty        // AttributeError: the selected slot holds no figure

  datatype Reply =
    | Respond(frame: seq<byte>)  // frame sent on endpoint 1, then the request acked
    | Acknowledge                // acked, nothing sent
    | Stall                      // request stalled
    | Raise(fault: Fault)        // the handler raised

  /** What a request leaves behind: the reply and the new device state. */
  datatype Handled = Handled(reply: Reply, active: bool, table: seq<Option<FigureImage>>)

  /** The slot a `Q` or `W` command addresses: `data[1] % 0x10 + 1`. */
  function SlotSelector(raw: byte): (slot: nat)
    ensures 1 <= slot <= SlotCount
    ensures slot == SlotCount <==> raw % 16 == 15
  {
    raw % 0x10 + 1
  }

  /** The reply to `R`: the tag, the reset word big-endian, zero-padded to a frame. */
  function ResetFrame(): (r: seq<byte>)
    ensures r == [0x52, 0x02, 0x0A, 0x03, 0x02] + Zeros(27)
  {
    LeftJustify([TagR] + UInt32BE(ResetWord), FrameSize)
  }

  /** The reply to `A`: the tag, the flag as a signed byte, the activate word
      big-endian, zero-padded to a frame. */
  function ActivateFrame(active: bool): (r: seq<byte>)
    ensures r == [0x41, if active then 1 else 0, 0xFF, 0x77] + Zeros(28)
  {
    LeftJustify([TagA, if active then 1 else 0] + UInt16BE(ActivateWord), FrameSize)
  }

  /** The reply to `Q`: the tag, the two selector bytes and a 16-byte block
      field, 19 bytes in all and not padded to a frame;
      the block is zero-filled to 16 bytes when it is short. */
  function QueryFrame(selector: byte, index: byte, block: seq<byte>): (r: seq<byte>)
    requires |block| <= BlockSize
    ensures |r| == 3 + BlockSize
    ensures r[..3] == [TagQ, selector, index]
    ensures r[3..3 + |block|] == block
    ensures forall k :: 3 + |block| <= k < |r| ==> r[k] == 0
  {
    [TagQ, selector, index] + FixedField(block, BlockSize)
  }

  /** The reply to `W`: the tag and the two selector bytes, zero-padded to a frame. */
  function WriteFrame(selector: byte, index: byte): (r: seq<byte>)
    ensures |r| == FrameSize
    ensures r[..3] == [TagW, selector, index]
    ensures forall k :: 3 <= k < FrameSize ==> r[k] == 0
  {
    LeftJustify([TagW, selector, index], FrameSize)
  }

  /** Where `ljust` leaves the fields of a status frame: the tag, the four
      bytes of the word, the counter, the flag, then zeros. */
  lemma StatusLayout(word: seq<byte>, counter: byte, flag: byte)
    requires |word| == 4
    ensures var r := LeftJustify([TagS] + word + [counter, flag], FrameSize);
      && |r| == FrameSize && r[0] == TagS && r[1..5] == word && r[5] == counter && r[6] == flag
      && (forall k :: 7 <= k < FrameSize ==> r[k] == 0)
  {
    var head := [TagS] + word + [counter, flag];
    var r := LeftJustify(head, FrameSize);
    assert r[..7] == head;
    assert head[1..5] == word;
  }

  /** The status frame: the tag, the status word little-endian, the counter and
      the flag, zero-padded to a frame. */
  function StatusFrame(status: bv32, counter: byte, active: bool): (r: seq<byte>)
    ensures |r| == FrameSize
    ensures r[0] == TagS
    ensures r[1..5] == UInt32LE(status as int) && FromUInt32LE(r[1..5]) == status as int
    ensures r[5] == counter
    ensures r[6] == if active then 1 else 0
    ensures forall k :: 7 <= k < FrameSize ==> r[k] == 0
  {
    var word := UInt32LE(status as int);
    var flag: byte := if active then 1 else 0;
    StatusLayout(word, counter, flag);
    LeftJustify([TagS] + word + [counter, flag], FrameSize)
  }

  /** The IN endpoint's counter after a poll: one more, modulo 255. */
  function NextCounter(counter: byte): (r: byte)
    requires counter < 0xff
    ensures r < 0xff
    ensures r == 0 <==> counter == 0xfe
    ensures r != 0 ==> r == counter + 1
  {
    (counter + 1) % 0xff
  }

  /** `handle_set_configuration_request`: the first payload byte selects the command. */
  function Dispatch(active: bool, table: seq<Option<FigureImage>>, data: seq<byte>): (h: Handled)
    requires |table| == SlotCount
    ensures |h.table| == SlotCount
  {
    if |data| == 0 then Handled(Raise(PayloadTooShort), active, table)
    else if data[0] == TagR then Handled(Respond(ResetFrame()), active, table)
    else if data[0] == TagA then
      if |data| < 2 then Handled(Raise(PayloadTooShort), active, table)
      else
        var on := data[1] != 0;
        Handled(Respond(ActivateFrame(on)), on, table)
    else if data[0] == TagC || data[0] == TagS then Handled(Acknowledge, active, table)
    else if data[0] == TagQ then
      if |data| < 3 then Handled(Raise(PayloadTooShort), active, table)
      else
        var slot := SlotSelector(data[1]);
        if slot >= SlotCount then Handled(Raise(SlotOutOfRange), active, table)
        else if table[slot].None? then Handled(Raise(SlotEmpty), active, table)
        else
          var block := BlockAt(table[slot].value.data, data[2]);
          Handled(Respond(QueryFrame(data[1], data[2], block)), active, table)
    else if data[0] == TagW then
      if |data| < 3 then Handled(Raise(PayloadTooShort), active, table)
      else
        var slot := SlotSelector(data[1]);
        if slot >= SlotCount then Handled(Raise(SlotOutOfRange), active, table)
        else if table[slot].None? then Handled(Raise(SlotEmpty), active, table)
        else
          var figure := table[slot].value;
          var written := figure.(data := Spliced(figure.data, data[2], data[3..]));
          Handled(Respond(WriteFrame(data[1], data[2])), active, table[slot := Some(written)])
    else Handled(Stall, active, table)
  }

  /** `R` answers `52 02 0A 03 02` and 27 zero bytes and changes nothing. */
  lemma ResetCommand(active: bool, table: seq<Option<FigureImage>>, data: seq<byte>)
    requires |table| == SlotCount
    requires |data| > 0 && data[0] == TagR
    ensures Dispatch(active, table, data) == Handled(Respond([0x52, 0x02, 0x0A, 0x03, 0x02] + Zeros(27)), active, table)
  {}

  /** `A` sets the flag to `data[1] != 0` and echoes it before `FF 77`. */
  lemma ActivateCommand(active: bool, table: seq<Option<FigureImage>>, data: seq<byte>)
    requires |table| == SlotCount
    requires |data| > 1 && data[0] == TagA
    ensures var on := data[1] != 0;
      Dispatch(active, table, data) == Handled(Respond([0x41, if on then 1 else 0, 0xFF, 0x77] + Zeros(28)), on, table)
  {}

  /** Selector bytes whose low nibble is `F` address slot 16, which the
      16-entry table does not have: `Q` and `W` raise. */
  lemma SlotSixteenRaises(active: bool, table: seq<Option<FigureImage>>, data: seq<byte>)
    requires |table| == SlotCount
    requires |data| > 2 && (data[0] == TagQ || data[0] == TagW)
    requires data[1] % 16 == 15
    ensures Dispatch(active, table, data) == Handled(Raise(SlotOutOfRange), active, table)
  {}

  /** A `Q` or `W` on a slot that holds no figure raises (the lookup of the
      figure's method fails) and changes nothing. */
  lemma EmptySlotRaises(active: bool, table: seq<Option<FigureImage>>, data: seq<byte>)
    requires |table| == SlotCount
    requires |data| > 2 && (data[0] == TagQ || data[0] == TagW)
    requires SlotSelector(data[1]) < SlotCount && table[SlotSelector(data[1])].None?
    ensures Dispatch(active, table, data) == Handled(Raise(SlotEmpty), active, table)
  {}

  /** `Q` on a loaded slot answers the tag, the two selector bytes and the block,
      zero-filled to 16 bytes, and changes nothing. */
  lemma QueryCommand(active: bool, table: seq<Option<FigureImage>>, data: seq<byte>)
    requires |table| == SlotCount
    requires |data| > 2 && data[0] == TagQ
    requires SlotSelector(data[1]) < SlotCount && table[SlotSelector(data[1])].Some?
    ensures var h := Dispatch(active, table, data);
      var block := BlockAt(table[SlotSelector(data[1])].value.data, data[2]);
      && h.active == active && h.table == table && h.reply.Respond?
      && |h.reply.frame| == 19
      && h.reply.frame[..3] == data[..3]
      && h.reply.frame[3..] == block + Zeros(BlockSize - |block|)
  {
    var h := Dispatch(active, table, data);
    var block := BlockAt(table[SlotSelector(data[1])].value.data, data[2]);
    assert h.reply.frame[3..] == FixedField(block, BlockSize);
  }

  /** How a request ends: a stall exactly on a tag that is not one of the six
      commands, an ack without a frame exactly for `C` and `S`, an exception
      exactly when the payload is too short for its command or a `Q` or `W`
      addresses slot 16 or an empty slot, and a `PayloadTooShort` one exactly
      in the first case; only `A`
      changes the active flag and only `W` the table, and a request that
      raises changes nothing. */
  lemma DispatchOutcomes(active: bool, table: seq<Option<FigureImage>>, data: seq<byte>)
    requires |table| == SlotCount
    ensures var h := Dispatch(active, table, data);
      && (h.reply.Stall? <==> |data| > 0 && data[0] !in {TagR, TagA, TagC, TagS, TagQ, TagW})
      && (h.reply.Acknowledge? <==> |data| > 0 && (data[0] == TagC || data[0] == TagS))
      && (h.reply.Raise? <==>
            || |data| == 0
            || (data[0] == TagA && |data| < 2)
            || ((data[0] == TagQ || data[0] == TagW)
                && (|data| < 3 || SlotSelector(data[1]) == SlotCount || table[SlotSelector(data[1])].None?)))
      && (h.reply == Raise(PayloadTooShort) <==>
            || |data| == 0
            || (data[0] == TagA && |data| < 2)
            || ((data[0] == TagQ || data[0] == TagW) && |data| < 3))
      && (h.active != active ==> |data| > 1 && data[0] == TagA && h.reply.Respond?)
      && (h.table != table ==> |data| > 2 && data[0] == TagW && h.reply.Respond?)
      && (h.reply.Raise? ==> h.active == active && h.table == table)
  {}

  /** `W` on a loaded slot splices `data[3:]` into the figure at block
      `data[2]`, keeps its path, answers with the `W` frame and changes no
      other slot. */
  lemma WriteCommand(active: bool, table: seq<Option<FigureImage>>, data: seq<byte>)
    requires |table| == SlotCount
    requires |data| > 2 && data[0] == TagW
    requires SlotSelector(data[1]) < SlotCount && table[SlotSelector(data[1])].Some?
    ensures var slot := SlotSelector(data[1]);
      var figure := table[slot].value;
      var h := Dispatch(active, table, data);
      && h.active == active
      && h.reply == Respond(WriteFrame(data[1], data[2]))
      && |h.table| == SlotCount
      && h.table[slot] == Some(FigureImage(figure.path, Spliced(figure.data, data[2], data[3..])))
      && (forall j :: 0 <= j < SlotCount && j != slot ==> h.table[j] == table[j])
  {}

  /** `W` then `Q` of the same selector and block index answers the written
      block, when the block is 16 bytes and lies inside the figure. */
  lemma QueryAfterWrite(active: bool, table: seq<Option<FigureImage>>, selector: byte, index: byte, block: seq<byte>)
    requires |table| == SlotCount
    requires SlotSelector(selector) < SlotCount && table[SlotSelector(selector)].Some?
    requires |block| == BlockSize
    requires BlockSize * index + BlockSize <= |table[SlotSelector(selector)].value.data|
    ensures var w := Dispatch(active, table, [TagW, selector, index] + block);
      var q := Dispatch(w.active, w.table, [TagQ, selector, index]);
      q.reply == Respond([TagQ, selector, index] + block)
  {
    var slot := SlotSelector(selector);
    var data := table[slot].value.data;
    var write := [TagW, selector, index] + block;
    assert write[3..] == block;
    WriteCommand(active, table, write);
    var w := Dispatch(active, table, write);
    WriteThenRead(data, index, block);
    assert BlockAt(w.table[slot].value.data, index) == block;
    var query := [TagQ, selector, index];
    QueryCommand(w.active, w.table, query);
    var frame := Dispatch(w.active, w.table, query).reply.frame;
    assert frame[..3] == query;
    assert frame[3..] == block;
    assert frame == frame[..3] + frame[3..];
  }

  /** Whatever the request, the handler leaves every slot's figure presence and
      path as they were: only the bytes of a figure change. */
  lemma DispatchKeepsFigures(active: bool, table: seq<Option<FigureImage>>, data: seq<byte>, i: nat)
    requires |table| == SlotCount && i < SlotCount
    ensures var h := Dispatch(active, table, data);
      && h.table[i].Some? == table[i].Some?
      && (table[i].Some? ==> h.table[i].value.path == table[i].value.path)
  {}
}
