/**
 * The configuration watcher's reload pass: `portal_status`, the 32-bit word the
 * IN endpoint reports, and the reconciliation of each slot's loaded figure with
 * the path the configuration names for it.
 *
 * Slot `i` owns the two bits `2*(i-1)` (low, "present") and `2*(i-1)+1` (high,
 * "changing"). Insertion sets both and then flips the high bit off; removal
 * toggles both and then flips the high bit. Every `await asyncio.sleep(1)` of
 * the loop is a window in which the host sees the status word as it stands: the
 * model appends that value to `observed`. The sleep that closes each round of
 * the watcher is recorded by `Poll` in the `Device` module.
 *
 * The loop visits `range(1, 16)`: slots 1 to 15. Slot 0 has no bit pair and is
 * never loaded, and the pair at bits 30 and 31 would belong to a slot 16 that
 * the 16-entry table does not have.
 */
module Watcher {
  import opened Bytes
  import opened Wrappers
  import opened Figures

  /** One past the last slot the reload loop visits (`range(1, 16)`). */
  const WatchEnd: nat := 16

  /** `2 * (slot - 1)` for slot `slot` in 1..16, as a shift amount. */
  function Offset(slot: nat): (k: bv32)
    requires 1 <= slot <= 16
    ensures k <= 30
  {
    match slot
    case 1 => 0
    case 2 => 2
    case 3 => 4
    case 4 => 6
    case 5 => 8
    case 6 => 10
    case 7 => 12
    case 8 => 14
    case 9 => 16
    case 10 => 18
    case 11 => 20
    case 12 => 22
    case 13 => 24
    case 14 => 26
    case 15 => 28
    case _ => 30
  }

  lemma OffsetsApart(i: nat, j: nat)
    requires 1 <= i <= 16 && 1 <= j <= 16 && i != j
    ensures Offset(i) + 2 <= Offset(j) || Offset(j) + 2 <= Offset(i)
  {}

  /** Both bits of slot `slot`: `3 << 2 * (slot - 1)`, built one pair at a
      time (`MaskIsShift` proves it is that shift). */
  function Mask(slot: nat): (m: bv32)
    requires 1 <= slot <= 16
  {
    if slot == 1 then 3 else Mask(slot - 1) << 2
  }

  /** The high ("changing") bit of slot `slot`: `1 << 2 * (slot - 1) + 1`,
      built one pair at a time (`NotifyIsShift` proves it is that shift). */
  function NotifyBit(slot: nat): (b: bv32)
    requires 1 <= slot <= 16
  {
    if slot == 1 then 2 else NotifyBit(slot - 1) << 2
  }

  /** The mask is the source's `3 << 2 * (slot - 1)`. */
  lemma {:induction false} MaskIsShift(slot: nat)
    requires 1 <= slot <= 16
    ensures Mask(slot) == (3 as bv32) << Offset(slot)
  {
    if slot > 1 {
      MaskIsShift(slot - 1);
      OffsetStep(slot);
      ShiftTwice(3, Offset(slot - 1));
    }
  }

  /** The notify bit is the source's `1 << 2 * (slot - 1) + 1`. */
  lemma {:induction false} NotifyIsShift(slot: nat)
    requires 1 <= slot <= 16
    ensures NotifyBit(slot) == (1 as bv32) << (Offset(slot) + 1)
  {
    if slot == 1 {
      assert Offset(1) + 1 == 1;
    } else {
      NotifyIsShift(slot - 1);
      OffsetStep(slot);
      ShiftTwice(1, Offset(slot - 1) + 1);
    }
  }

  lemma OffsetStep(slot: nat)
    requires 2 <= slot <= 16
    ensures Offset(slot) == Offset(slot - 1) + 2
  {}

  lemma ShiftTwice(x: bv32, k: bv32)
    requires k <= 29
    ensures (x << k) << 2 == x << (k + 2)
  {}

  /** The two bits of slot `slot`, high bit first, as a number 0..3. Slots 1 to
      16 together cover all 32 bits. */
  function Pair(status: bv32, slot: nat): (p: bv32)
    requires 1 <= slot <= 16
    ensures p <= 3
  {
    PairAt(status, Offset(slot))
  }

  function PairAt(status: bv32, k: bv32): (p: bv32)
    requires k <= 30
    ensures p <= 3
  {
    (status >> k) & 3
  }

  /** `a` and `b` agree on every pair but slot `slot`'s, hence on every bit
      outside it. */
  ghost predicate SameOutside(a: bv32, b: bv32, slot: nat)
    requires 1 <= slot <= 16
  {
    forall other :: 1 <= other <= 16 && other != slot ==> Pair(a, other) == Pair(b, other)
  }

  // Bit-vector facts on a raw shift amount `k`. The solver decides each alone
  // quickly, but not several at once, so the slot-level facts below are
  // assembled from them by rewriting only.

  lemma PairXor(a: bv32, b: bv32, k: bv32)
    requires k <= 30
    ensures PairAt(a ^ b, k) == PairAt(a, k) ^ PairAt(b, k)
  {}

  lemma PairOr(a: bv32, b: bv32, k: bv32)
    requires k <= 30
    ensures PairAt(a | b, k) == PairAt(a, k) | PairAt(b, k)
  {}

  lemma PairOfZero(k: bv32)
    requires k <= 30
    ensures PairAt(0, k) == 0
  {}

  lemma MaskBelow(k: bv32, m: bv32)
    requires k <= 30 && m <= 30 && k + 2 <= m
    ensures PairAt((3 as bv32) << k, m) == 0
  {}

  lemma MaskAbove(k: bv32, m: bv32)
    requires k <= 30 && m <= 30 && m + 2 <= k
    ensures PairAt((3 as bv32) << k, m) == 0
  {}

  lemma HighBelow(k: bv32, m: bv32)
    requires k <= 30 && m <= 30 && k + 2 <= m
    ensures PairAt((1 as bv32) << (k + 1), m) == 0
  {}

  lemma HighAbove(k: bv32, m: bv32)
    requires k <= 30 && m <= 30 && m + 2 <= k
    ensures PairAt((1 as bv32) << (k + 1), m) == 0
  {}

  lemma MaskOwn(k: bv32)
    requires k <= 30
    ensures PairAt((3 as bv32) << k, k) == 3
  {}

  lemma HighOwn(k: bv32)
    requires k <= 30
    ensures PairAt((1 as bv32) << (k + 1), k) == 2
  {}

  lemma XorClearAt(a: bv32, b: bv32, k: bv32)
    requires k <= 30 && PairAt(b, k) == 0
    ensures PairAt(a ^ b, k) == PairAt(a, k)
  {}

  lemma OrClearAt(a: bv32, b: bv32, k: bv32)
    requires k <= 30 && PairAt(b, k) == 0
    ensures PairAt(a | b, k) == PairAt(a, k)
  {}

  lemma Complement(p: bv32)
    requires p <= 3
    ensures p ^ 3 == 3 - p
  {}

  lemma OrThree(p: bv32)
    requires p <= 3
    ensures p | 3 == 3
  {}

  // The same facts for a slot.

  lemma MaskOwnSlot(slot: nat)
    requires 1 <= slot <= 16
    ensures Pair(Mask(slot), slot) == 3
  {
    MaskIsShift(slot);
    MaskOwn(Offset(slot));
  }

  lemma NotifyOwnSlot(slot: nat)
    requires 1 <= slot <= 16
    ensures Pair(NotifyBit(slot), slot) == 2
  {
    NotifyIsShift(slot);
    HighOwn(Offset(slot));
  }

  lemma MaskElsewhere(slot: nat, other: nat)
    requires 1 <= slot <= 16 && 1 <= other <= 16 && slot != other
    ensures Pair(Mask(slot), other) == 0
  {
    MaskIsShift(slot);
    OffsetsApart(slot, other);
    if Offset(slot) < Offset(other) {
      MaskBelow(Offset(slot), Offset(other));
    } else {
      MaskAbove(Offset(slot), Offset(other));
    }
  }

  lemma NotifyElsewhere(slot: nat, other: nat)
    requires 1 <= slot <= 16 && 1 <= other <= 16 && slot != other
    ensures Pair(NotifyBit(slot), other) == 0
  {
    NotifyIsShift(slot);
    OffsetsApart(slot, other);
    if Offset(slot) < Offset(other) {
      HighBelow(Offset(slot), Offset(other));
    } else {
      HighAbove(Offset(slot), Offset(other));
    }
  }

  // Applying a mask to the status word, for a mask whose pair at `other` is
  // known; stated for any mask so that no table is unfolded here.

  lemma XorOther(status: bv32, mask: bv32, other: nat)
    requires 1 <= other <= 16 && Pair(mask, other) == 0
    ensures Pair(status ^ mask, other) == Pair(status, other)
  {
    XorClearAt(status, mask, Offset(other));
  }

  lemma XorOwn(status: bv32, mask: bv32, slot: nat)
    requires 1 <= slot <= 16 && Pair(mask, slot) == 3
    ensures Pair(status ^ mask, slot) == 3 - Pair(status, slot)
  {
    PairXor(status, mask, Offset(slot));
    Complement(Pair(status, slot));
  }

  lemma OrOther(status: bv32, mask: bv32, other: nat)
    requires 1 <= other <= 16 && Pair(mask, other) == 0
    ensures Pair(status | mask, other) == Pair(status, other)
  {
    OrClearAt(status, mask, Offset(other));
  }

  lemma OrOwn(status: bv32, mask: bv32, slot: nat)
    requires 1 <= slot <= 16 && Pair(mask, slot) == 3
    ensures Pair(status | mask, slot) == 3
  {
    PairOr(status, mask, Offset(slot));
    OrThree(Pair(status, slot));
  }

  lemma XorHigh(status: bv32, bit: bv32, slot: nat)
    requires 1 <= slot <= 16 && Pair(bit, slot) == 2
    ensures Pair(status ^ bit, slot) == Pair(status, slot) ^ 2
  {
    PairXor(status, bit, Offset(slot));
  }

  /** `portal_status ^= 3 << 2 * (index - 1)`: both bits of the slot flip. */
  function Toggled(status: bv32, slot: nat): (r: bv32)
    requires 1 <= slot <= 16
  {
    status ^ Mask(slot)
  }

  /** `portal_status |= 3 << 2 * (index - 1)`: both bits of the slot set. */
  function Marked(status: bv32, slot: nat): (r: bv32)
    requires 1 <= slot <= 16
  {
    status | Mask(slot)
  }

  /** `portal_status ^= 1 << 2 * (index - 1) + 1`: the slot's high bit flips. */
  function NotifyFlipped(status: bv32, slot: nat): (r: bv32)
    requires 1 <= slot <= 16
  {
    status ^ NotifyBit(slot)
  }

  /** A mask that is zero on every pair but slot `slot`'s. */
  ghost predicate Confined(mask: bv32, slot: nat)
    requires 1 <= slot <= 16
  {
    forall other :: 1 <= other <= 16 && other != slot ==> Pair(mask, other) == 0
  }

  lemma MaskConfined(slot: nat)
    requires 1 <= slot <= 16
    ensures Confined(Mask(slot), slot)
  {
    forall other | 1 <= other <= 16 && other != slot
      ensures Pair(Mask(slot), other) == 0
    {
      MaskElsewhere(slot, other);
    }
  }

  lemma NotifyConfined(slot: nat)
    requires 1 <= slot <= 16
    ensures Confined(NotifyBit(slot), slot)
  {
    forall other | 1 <= other <= 16 && other != slot
      ensures Pair(NotifyBit(slot), other) == 0
    {
      NotifyElsewhere(slot, other);
    }
  }

  /** Xor with a confined mask changes no other pair. */
  lemma XorOutside(status: bv32, mask: bv32, slot: nat)
    requires 1 <= slot <= 16 && Confined(mask, slot)
    ensures SameOutside(status ^ mask, status, slot)
  {
    forall other | 1 <= other <= 16 && other != slot
      ensures Pair(status ^ mask, other) == Pair(status, other)
    {
      XorOther(status, mask, other);
    }
  }

  /** Or with a confined mask changes no other pair. */
  lemma OrOutside(status: bv32, mask: bv32, slot: nat)
    requires 1 <= slot <= 16 && Confined(mask, slot)
    ensures SameOutside(status | mask, status, slot)
  {
    forall other | 1 <= other <= 16 && other != slot
      ensures Pair(status | mask, other) == Pair(status, other)
    {
      OrOther(status, mask, other);
    }
  }

  /** Toggling complements the slot's pair and leaves every other bit alone. */
  lemma ToggledPairs(status: bv32, slot: nat)
    requires 1 <= slot <= 16
    ensures SameOutside(Toggled(status, slot), status, slot)
    ensures Pair(Toggled(status, slot), slot) == 3 - Pair(status, slot)
  {
    ToggledOutside(status, slot);
    ToggledOwn(status, slot);
  }

  lemma ToggledOutside(status: bv32, slot: nat)
    requires 1 <= slot <= 16
    ensures SameOutside(Toggled(status, slot), status, slot)
  {
    MaskConfined(slot);
    XorOutside(status, Mask(slot), slot);
  }

  lemma ToggledOwn(status: bv32, slot: nat)
    requires 1 <= slot <= 16
    ensures Pair(Toggled(status, slot), slot) == 3 - Pair(status, slot)
  {
    var mask := Mask(slot);
    MaskOwnSlot(slot);
    XorOwn(status, mask, slot);
    assert Toggled(status, slot) == status ^ mask;
  }

  /** Marking sets the slot's pair to `11` and leaves every other bit alone. */
  lemma MarkedPairs(status: bv32, slot: nat)
    requires 1 <= slot <= 16
    ensures SameOutside(Marked(status, slot), status, slot)
    ensures Pair(Marked(status, slot), slot) == 3
  {
    MarkedOutside(status, slot);
    MarkedOwn(status, slot);
  }

  lemma MarkedOutside(status: bv32, slot: nat)
    requires 1 <= slot <= 16
    ensures SameOutside(Marked(status, slot), status, slot)
  {
    MaskConfined(slot);
    OrOutside(status, Mask(slot), slot);
  }

  lemma MarkedOwn(status: bv32, slot: nat)
    requires 1 <= slot <= 16
    ensures Pair(Marked(status, slot), slot) == 3
  {
    MaskOwnSlot(slot);
    OrOwn(status, Mask(slot), slot);
  }

  /** Flipping the notify bit flips the high bit of the slot's pair and leaves
      every other bit alone. */
  lemma NotifyFlippedPairs(status: bv32, slot: nat)
    requires 1 <= slot <= 16
    ensures SameOutside(NotifyFlipped(status, slot), status, slot)
    ensures Pair(NotifyFlipped(status, slot), slot) == Pair(status, slot) ^ 2
  {
    NotifyFlippedOutside(status, slot);
    NotifyFlippedOwn(status, slot);
  }

  lemma NotifyFlippedOutside(status: bv32, slot: nat)
    requires 1 <= slot <= 16
    ensures SameOutside(NotifyFlipped(status, slot), status, slot)
  {
    NotifyConfined(slot);
    XorOutside(status, NotifyBit(slot), slot);
  }

  lemma NotifyFlippedOwn(status: bv32, slot: nat)
    requires 1 <= slot <= 16
    ensures Pair(NotifyFlipped(status, slot), slot) == Pair(status, slot) ^ 2
  {
    NotifyOwnSlot(slot);
    XorHigh(status, NotifyBit(slot), slot);
  }

  /** Slot `slot`'s pair when the status agrees with the table: `01` for a
      loaded figure, `00` for an empty slot. */
  function Presence(entry: Option<FigureImage>): (p: bv32)
    ensures p <= 1 && (p == 1 <==> entry.Some?)
  {
    if entry.Some? then 1 else 0
  }

  /** The status word agrees with the slot table: each pair is `01` exactly
      when its slot holds a figure, slot 0 (which has no pair) is empty, and
      every loaded figure came from a non-empty path. */
  ghost predicate Consistent(status: bv32, table: seq<Option<FigureImage>>)
  {
    && |table| == SlotCount
    && table[0].None?
    && (forall i :: 1 <= i <= WatchEnd ==> Reported(status, table, i))
    && (forall i :: 0 <= i < SlotCount ==> Named(table, i))
  }

  /** Slot `i`'s pair is `01` when it holds a figure and `00` when it does not;
      slot 16, which the table does not have, never holds one. */
  ghost predicate Reported(status: bv32, table: seq<Option<FigureImage>>, i: nat)
    requires 1 <= i <= WatchEnd && |table| == SlotCount
  {
    Pair(status, i) == if i < SlotCount then Presence(table[i]) else 0
  }

  /** A figure in slot `i` was loaded from a non-empty path. */
  ghost predicate Named(table: seq<Option<FigureImage>>, i: nat)
    requires i < |table|
  {
    table[i].Some? ==> table[i].value.path != ""
  }

  /** The module-level start: `portal_status = 0` and sixteen empty slots. */
  function EmptyTable(): (t: seq<Option<FigureImage>>)
    ensures |t| == SlotCount
    ensures forall i :: 0 <= i < SlotCount ==> t[i].None?
  {
    seq(SlotCount, _ => None)
  }

  lemma InitiallyConsistent()
    ensures Consistent(0, EmptyTable())
  {
    forall i | 1 <= i <= WatchEnd
      ensures Reported(0, EmptyTable(), i)
    {
      PairOfZero(Offset(i));
    }
  }

  /** A change confined to slot `slot` keeps the status word in agreement with
      the table when the slot's new pair reports its new entry. */
  lemma ChangeKeepsConsistent(status: bv32, table: seq<Option<FigureImage>>,
                              status': bv32, table': seq<Option<FigureImage>>, slot: nat)
    requires Consistent(status, table) && 1 <= slot < WatchEnd && |table'| == SlotCount
    requires SameOutside(status', status, slot)
    requires forall j :: 0 <= j < SlotCount && j != slot ==> table'[j] == table[j]
    requires Pair(status', slot) == Presence(table'[slot]) && Named(table', slot)
    ensures Consistent(status', table')
  {
    forall i | 1 <= i <= WatchEnd
      ensures Reported(status', table', i)
    {
      assert Reported(status, table, i);
    }
    forall i | 0 <= i < SlotCount
      ensures Named(table', i)
    {
      assert Named(table, i);
    }
  }

  /** Rewriting a loaded figure's bytes (a `W` command) keeps the status word
      in agreement with the table. */
  lemma RewriteKeepsConsistent(status: bv32, table: seq<Option<FigureImage>>, slot: nat, data: seq<byte>)
    requires Consistent(status, table) && slot < SlotCount && table[slot].Some?
    ensures Consistent(status, table[slot := Some(table[slot].value.(data := data))])
  {
    var t := table[slot := Some(table[slot].value.(data := data))];
    forall i | 1 <= i <= WatchEnd
      ensures Reported(status, t, i)
    {
      assert Reported(status, table, i);
    }
    forall i | 0 <= i < SlotCount
      ensures Named(t, i)
    {
      assert Named(table, i);
    }
  }

  /** What the watcher works on: the status word, the slot table, the files
      figures are loaded from and saved to, and every status value the host
      can observe during a `sleep(1)`, oldest first. */
  datatype WatchState = WatchState(
    status: bv32,
    table: seq<Option<FigureImage>>,
    files: map<string, seq<byte>>,
    observed: seq<bv32>)

  /** A pass either visits every watched slot, or stops at the slot whose file
      could not be opened (the exception ends the watcher). */
  datatype PassResult =
    | Completed(state: WatchState)
    | LoadFailed(slot: nat, state: WatchState)

  /** The slot's line of the `[slots]` section, if there is one. */
  function ConfigPath(config: map<nat, string>, slot: nat): (line: Option<string>)
    ensures line.Some? <==> slot in config
    ensures line.Some? ==> line.value == config[slot]
  {
    if slot in config then Some(config[slot]) else None
  }

  /** Python truthiness of the configured value: present and non-empty. */
  predicate Truthy(path: Option<string>)
    ensures Truthy(path) <==> path != None && path != Some("")
  {
    path.Some? && path.value != ""
  }

  /** The watcher's removal of the figure in `slot`: both bits toggle, then the
      high bit flips back; the figure is saved to its file and the slot emptied. */
  function Remove(w: WatchState, slot: nat): (r: WatchState)
    requires 1 <= slot < WatchEnd && |w.table| == SlotCount && w.table[slot].Some?
    ensures |r.table| == SlotCount && r.table[slot].None?
    ensures forall j :: 0 <= j < SlotCount && j != slot ==> r.table[j] == w.table[j]
    ensures var fig := w.table[slot].value;
      && r.files.Keys == w.files.Keys + {fig.path}
      && r.files[fig.path] == fig.data
      && (forall p :: p in w.files && p != fig.path ==> r.files[p] == w.files[p])
    ensures |r.observed| == |w.observed| + 2 && r.observed[..|w.observed|] == w.observed
    ensures r.observed[|w.observed| + 1] == r.status
  {
    var fig := w.table[slot].value;
    var changing := Toggled(w.status, slot);
    var removed := NotifyFlipped(changing, slot);
    WatchState(removed, w.table[slot := None], w.files[fig.path := fig.data], w.observed + [changing, removed])
  }

  /** The watcher's insertion of a figure loaded from `path`: both bits set,
      then the high bit flips off. */
  function Insert(w: WatchState, slot: nat, path: string): (r: WatchState)
    requires 1 <= slot < WatchEnd && |w.table| == SlotCount && path in w.files
    ensures |r.table| == SlotCount && r.table[slot] == Some(FigureImage(path, w.files[path]))
    ensures forall j :: 0 <= j < SlotCount && j != slot ==> r.table[j] == w.table[j]
    ensures r.files == w.files
    ensures |r.observed| == |w.observed| + 2 && r.observed[..|w.observed|] == w.observed
    ensures r.observed[|w.observed| + 1] == r.status
  {
    var arriving := Marked(w.status, slot);
    var present := NotifyFlipped(arriving, slot);
    WatchState(present, w.table[slot := Some(FigureImage(path, w.files[path]))], w.files, w.observed + [arriving, present])
  }

  /** One iteration of the reload loop for `slot`: remove the loaded figure when
      the configured path differs from its own (a missing line counts as
      different), then load the configured file when the slot is empty and the
      configured value is non-empty. */
  function ReconcileSlot(w: WatchState, config: map<nat, string>, slot: nat): (r: PassResult)
    requires 1 <= slot < WatchEnd && |w.table| == SlotCount
    ensures r.LoadFailed? ==> r.slot == slot
    ensures |r.state.table| == SlotCount
    ensures forall j :: 0 <= j < SlotCount && j != slot ==> r.state.table[j] == w.table[j]
  {
    var path := ConfigPath(config, slot);
    var w' := if w.table[slot].Some? && Some(w.table[slot].value.path) != path then Remove(w, slot) else w;
    if w'.table[slot].None? && Truthy(path) then
      if path.value in w'.files then Completed(Insert(w', slot, path.value))
      else LoadFailed(slot, w')
    else Completed(w')
  }

  /** The reload loop over slots `1 .. upto - 1`; a failure ends the pass with
      the state it left behind. */
  function RunPass(w: WatchState, config: map<nat, string>, upto: nat): (r: PassResult)
    requires 1 <= upto <= WatchEnd && |w.table| == SlotCount
    ensures |r.state.table| == SlotCount
    ensures r.LoadFailed? ==> 1 <= r.slot < upto
    ensures forall j :: 0 <= j < SlotCount && !(1 <= j < upto) ==> r.state.table[j] == w.table[j]
    decreases upto
  {
    if upto == 1 then Completed(w)
    else
      var before := RunPass(w, config, upto - 1);
      if before.LoadFailed? then before
      else ReconcileSlot(before.state, config, upto - 1)
  }

  /** The pass up to `upto + 1` is the pass up to `upto` followed by slot `upto`. */
  lemma PassStep(w: WatchState, config: map<nat, string>, upto: nat)
    requires 1 <= upto < WatchEnd && |w.table| == SlotCount
    requires RunPass(w, config, upto).Completed?
    ensures RunPass(w, config, upto + 1) == ReconcileSlot(RunPass(w, config, upto).state, config, upto)
  {}

  /** One more slot of a pass that has so far completed: the pass up to
      `upto + 1` is what reconciling slot `upto` gives, and when that load
      fails it is the result of the whole pass. */
  lemma PassAdvance(w: WatchState, config: map<nat, string>, upto: nat, current: WatchState)
    requires 1 <= upto < WatchEnd && |w.table| == SlotCount
    requires RunPass(w, config, upto) == Completed(current)
    ensures RunPass(w, config, upto + 1) == ReconcileSlot(current, config, upto)
    ensures RunPass(w, config, upto + 1).LoadFailed? ==> RunPass(w, config, WatchEnd) == RunPass(w, config, upto + 1)
  {
    if RunPass(w, config, upto + 1).LoadFailed? {
      FailedPassStops(w, config, upto + 1, WatchEnd);
    }
  }

  /** Once a slot's file cannot be opened, the rest of the pass never runs:
      the result stays the failure at that slot. */
  lemma {:induction false} FailedPassStops(w: WatchState, config: map<nat, string>, upto: nat, later: nat)
    requires 1 <= upto <= later <= WatchEnd && |w.table| == SlotCount
    requires RunPass(w, config, upto).LoadFailed?
    ensures RunPass(w, config, later) == RunPass(w, config, upto)
    decreases later
  {
    if later > upto {
      FailedPassStops(w, config, upto, later - 1);
    }
  }

  /** Removal reports the complement of the slot's pair, then that with the
      high bit flipped; no other pair changes. */
  lemma RemovePairs(w: WatchState, slot: nat)
    requires 1 <= slot < WatchEnd && |w.table| == SlotCount && w.table[slot].Some?
    ensures var r := Remove(w, slot);
      && SameOutside(r.observed[|w.observed|], w.status, slot)
      && SameOutside(r.status, w.status, slot)
      && Pair(r.observed[|w.observed|], slot) == 3 - Pair(w.status, slot)
      && Pair(r.status, slot) == (3 - Pair(w.status, slot)) ^ 2
  {
    var changing := Toggled(w.status, slot);
    ToggledPairs(w.status, slot);
    NotifyFlippedPairs(changing, slot);
  }

  /** Insertion reports `11`, then `01`; no other pair changes. */
  lemma InsertPairs(w: WatchState, slot: nat, path: string)
    requires 1 <= slot < WatchEnd && |w.table| == SlotCount && path in w.files
    ensures var r := Insert(w, slot, path);
      && SameOutside(r.observed[|w.observed|], w.status, slot)
      && SameOutside(r.status, w.status, slot)
      && Pair(r.observed[|w.observed|], slot) == 3
      && Pair(r.status, slot) == 1
  {
    var arriving := Marked(w.status, slot);
    MarkedPairs(w.status, slot);
    NotifyFlippedPairs(arriving, slot);
    assert (3 as bv32) ^ 2 == 1;
  }

  /** Removal of a figure from a consistent state reports `10` and then `00`
      for its slot and keeps the state consistent. */
  lemma RemoveKeepsConsistent(w: WatchState, slot: nat)
    requires 1 <= slot < WatchEnd && Consistent(w.status, w.table) && w.table[slot].Some?
    ensures var r := Remove(w, slot);
      && Consistent(r.status, r.table)
      && Pair(r.observed[|w.observed|], slot) == 2
      && Pair(r.status, slot) == 0
  {
    var r := Remove(w, slot);
    RemovePairs(w, slot);
    assert Reported(w.status, w.table, slot);
    assert Pair(r.status, slot) == 0 by {
      assert (3 - (1 as bv32)) ^ 2 == 0;
    }
    ChangeKeepsConsistent(w.status, w.table, r.status, r.table, slot);
  }

  /** Insertion into an empty slot of a consistent state reports `11` and then
      `01` and keeps the state consistent. */
  lemma InsertKeepsConsistent(w: WatchState, slot: nat, path: string)
    requires 1 <= slot < WatchEnd && Consistent(w.status, w.table) && w.table[slot].None?
    requires path in w.files && path != ""
    ensures var r := Insert(w, slot, path);
      && Consistent(r.status, r.table)
      && Pair(r.observed[|w.observed|], slot) == 3
      && Pair(r.status, slot) == 1
  {
    var r := Insert(w, slot, path);
    InsertPairs(w, slot, path);
    ChangeKeepsConsistent(w.status, w.table, r.status, r.table, slot);
  }

  /** Reconciling a slot changes no other slot's pair, neither in the final
      status word nor in any word the host can read during its sleeps. */
  lemma ReconcileTouchesOnlyItsPair(w: WatchState, config: map<nat, string>, slot: nat)
    requires 1 <= slot < WatchEnd && |w.table| == SlotCount
    ensures var r := ReconcileSlot(w, config, slot);
      && SameOutside(r.state.status, w.status, slot)
      && |w.observed| <= |r.state.observed|
      && r.state.observed[..|w.observed|] == w.observed
      && (forall k :: |w.observed| <= k < |r.state.observed| ==> SameOutside(r.state.observed[k], w.status, slot))
  {
    var path := ConfigPath(config, slot);
    var r := ReconcileSlot(w, config, slot);
    var w' := w;
    if w.table[slot].Some? && Some(w.table[slot].value.path) != path {
      RemoveReportsOutside(w, slot);
      w' := Remove(w, slot);
    }
    if w'.table[slot].None? && Truthy(path) && path.value in w'.files {
      InsertReportsOutside(w', slot, path.value);
      assert r.state == Insert(w', slot, path.value);
      forall k | |w.observed| <= k < |r.state.observed|
        ensures SameOutside(r.state.observed[k], w.status, slot)
      {
        if k < |w'.observed| {
          assert r.state.observed[k] == w'.observed[k];
        } else {
          SameOutsideTrans(r.state.observed[k], w'.status, w.status, slot);
        }
      }
      SameOutsideTrans(r.state.status, w'.status, w.status, slot);
    } else {
      assert r.state == w';
    }
  }

  /** Agreement outside a slot's pair carries over from word to word. */
  lemma SameOutsideTrans(a: bv32, b: bv32, c: bv32, slot: nat)
    requires 1 <= slot <= 16 && SameOutside(a, b, slot) && SameOutside(b, c, slot)
    ensures SameOutside(a, c, slot)
  {}

  /** Every word a removal reports, and its final word, keep the other pairs of
      the word before it; earlier reports are kept. */
  lemma RemoveReportsOutside(w: WatchState, slot: nat)
    requires 1 <= slot < WatchEnd && |w.table| == SlotCount && w.table[slot].Some?
    ensures var r := Remove(w, slot);
      && SameOutside(r.status, w.status, slot)
      && r.observed[..|w.observed|] == w.observed
      && (forall k :: |w.observed| <= k < |r.observed| ==> SameOutside(r.observed[k], w.status, slot))
  {
    RemovePairs(w, slot);
  }

  /** Every word an insertion reports, and its final word, keep the other
      pairs of the word before it; earlier reports are kept. */
  lemma InsertReportsOutside(w: WatchState, slot: nat, path: string)
    requires 1 <= slot < WatchEnd && |w.table| == SlotCount && path in w.files
    ensures var r := Insert(w, slot, path);
      && SameOutside(r.status, w.status, slot)
      && r.observed[..|w.observed|] == w.observed
      && (forall k :: |w.observed| <= k < |r.observed| ==> SameOutside(r.observed[k], w.status, slot))
  {
    InsertPairs(w, slot, path);
  }

  /** One slot's reconciliation keeps the status word in agreement with the
      table, and leaves the slot as the configuration names it. */
  lemma ReconcileKeepsConsistent(w: WatchState, config: map<nat, string>, slot: nat)
    requires 1 <= slot < WatchEnd && Consistent(w.status, w.table)
    ensures var r := ReconcileSlot(w, config, slot);
      && Consistent(r.state.status, r.state.table)
      && (r.Completed? ==> Matches(r.state.table[slot], ConfigPath(config, slot)))
      && (r.LoadFailed? <==> Truthy(ConfigPath(config, slot)) && r.state.table[slot].None?
                              && ConfigPath(config, slot).value !in r.state.files)
  {
    var path := ConfigPath(config, slot);
    assert Named(w.table, slot);
    if w.table[slot].Some? && Some(w.table[slot].value.path) != path {
      RemoveKeepsConsistent(w, slot);
      var w' := Remove(w, slot);
      if Truthy(path) && path.value in w'.files {
        InsertKeepsConsistent(w', slot, path.value);
      }
    } else if w.table[slot].None? && Truthy(path) && path.value in w.files {
      InsertKeepsConsistent(w, slot, path.value);
    }
  }

  /** A slot whose figure was loaded from another file than the one now
      configured is emptied and reloaded in the same pass: the old figure is
      saved to its own file, and the host sees the slot's pair go `10`, `00`,
      `11`, `01`. */
  lemma ChangedPathReloads(w: WatchState, config: map<nat, string>, slot: nat)
    requires 1 <= slot < WatchEnd && Consistent(w.status, w.table) && w.table[slot].Some?
    requires Truthy(ConfigPath(config, slot))
    requires ConfigPath(config, slot).value != w.table[slot].value.path
    requires ConfigPath(config, slot).value in w.files
    ensures var r, saved, path := ReconcileSlot(w, config, slot), w.table[slot].value, ConfigPath(config, slot).value;
      && r.Completed?
      && r.state.table[slot] == Some(FigureImage(path, w.files[path]))
      && saved.path in r.state.files && r.state.files[saved.path] == saved.data
      && |r.state.observed| == |w.observed| + 4
      && r.state.observed[..|w.observed|] == w.observed
      && Pair(r.state.observed[|w.observed|], slot) == 2
      && Pair(r.state.observed[|w.observed| + 1], slot) == 0
      && Pair(r.state.observed[|w.observed| + 2], slot) == 3
      && Pair(r.state.observed[|w.observed| + 3], slot) == 1
  {
    var path := ConfigPath(config, slot).value;
    var n := |w.observed|;
    RemoveKeepsConsistent(w, slot);
    var removed := Remove(w, slot);
    InsertKeepsConsistent(removed, slot, path);
    var inserted := Insert(removed, slot, path);
    assert inserted.observed[n] == removed.observed[n] by {
      assert inserted.observed[..n + 2] == removed.observed;
    }
    assert inserted.observed[n + 1] == removed.status by {
      assert inserted.observed[..n + 2] == removed.observed;
    }
    assert inserted.observed[..n] == w.observed by {
      assert inserted.observed[..n] == inserted.observed[..n + 2][..n];
    }
  }

  /** A slot entry matches the configured value: a figure is loaded exactly
      when the value is non-empty, and it is the file the value names. */
  predicate Matches(entry: Option<FigureImage>, path: Option<string>)
  {
    && (entry.Some? <==> Truthy(path))
    && (entry.Some? ==> path == Some(entry.value.path))
  }

  /** Every pass keeps the status word in agreement with the table, whether it
      completes or stops at a file that cannot be opened. */
  lemma {:induction false} PassKeepsConsistent(w: WatchState, config: map<nat, string>, upto: nat)
    requires 1 <= upto <= WatchEnd && Consistent(w.status, w.table)
    ensures Consistent(RunPass(w, config, upto).state.status, RunPass(w, config, upto).state.table)
    decreases upto
  {
    if upto > 1 {
      PassKeepsConsistent(w, config, upto - 1);
      var before := RunPass(w, config, upto - 1);
      if before.Completed? {
        PassStep(w, config, upto - 1);
        ReconcileKeepsConsistent(before.state, config, upto - 1);
        assert RunPass(w, config, upto) == ReconcileSlot(before.state, config, upto - 1);
      } else {
        assert RunPass(w, config, upto) == before;
      }
    }
  }

  /** One more step of a pass keeps every visited slot matching its line:
      `r` is the pass up to `slot + 1` and `before` the pass up to `slot`. */
  lemma ReconcileExtendsMatch(before: PassResult, r: PassResult, config: map<nat, string>, slot: nat)
    requires 1 <= slot < WatchEnd && Consistent(before.state.status, before.state.table)
    requires before.Completed? ==> forall i :: 1 <= i < slot ==> Matches(before.state.table[i], ConfigPath(config, i))
    requires before.Completed? ==> r == ReconcileSlot(before.state, config, slot)
    requires before.LoadFailed? ==> r == before
    ensures r.Completed? ==> forall i :: 1 <= i <= slot ==> Matches(r.state.table[i], ConfigPath(config, i))
  {
    if before.Completed? {
      ReconcileKeepsConsistent(before.state, config, slot);
      if r.Completed? {
        forall i | 1 <= i <= slot
          ensures Matches(r.state.table[i], ConfigPath(config, i))
        {
          if i < slot {
            assert r.state.table[i] == before.state.table[i];
          }
        }
      }
    }
  }

  /** After a completed pass every visited slot holds exactly the figure its
      configuration line names, and nothing where the line is missing or empty. */
  lemma {:induction false} PassMatchesConfig(w: WatchState, config: map<nat, string>, upto: nat)
    requires 1 <= upto <= WatchEnd && Consistent(w.status, w.table)
    ensures var r := RunPass(w, config, upto);
      r.Completed? ==> forall i :: 1 <= i < upto ==> Matches(r.state.table[i], ConfigPath(config, i))
    decreases upto
  {
    if upto > 1 {
      PassMatchesConfig(w, config, upto - 1);
      PassKeepsConsistent(w, config, upto - 1);
      ReconcileExtendsMatch(RunPass(w, config, upto - 1), RunPass(w, config, upto), config, upto - 1);
    }
  }

  /** Reconciling a slot that already matches its configuration changes nothing
      and reports nothing. */
  lemma ReconcileMatchedIsIdle(w: WatchState, config: map<nat, string>, slot: nat)
    requires 1 <= slot < WatchEnd && |w.table| == SlotCount
    requires Matches(w.table[slot], ConfigPath(config, slot))
    ensures ReconcileSlot(w, config, slot) == Completed(w)
  {}

  /** A pass over a table that already matches the configuration is idle: the
      status word, the table, the files and what the host observes all stay as
      they were. So re-reading an unchanged configuration file is harmless. */
  lemma {:induction false} MatchedPassIsIdle(w: WatchState, config: map<nat, string>, upto: nat)
    requires 1 <= upto <= WatchEnd && |w.table| == SlotCount
    requires forall i :: 1 <= i < upto ==> Matches(w.table[i], ConfigPath(config, i))
    ensures RunPass(w, config, upto) == Completed(w)
    decreases upto
  {
    if upto > 1 {
      MatchedPassIsIdle(w, config, upto - 1);
      ReconcileMatchedIsIdle(w, config, upto - 1);
    }
  }

  /** Running the same configuration twice: the second pass does nothing. */
  lemma ReloadTwiceIsReloadOnce(w: WatchState, config: map<nat, string>)
    requires Consistent(w.status, w.table)
    ensures var r := RunPass(w, config, WatchEnd);
      r.Completed? ==> RunPass(r.state, config, WatchEnd) == r
  {
    PassMatchesConfig(w, config, WatchEnd);
    var r := RunPass(w, config, WatchEnd);
    if r.Completed? {
      MatchedPassIsIdle(r.state, config, WatchEnd);
    }
  }
}
