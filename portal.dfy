/**
 * The emulated portal as one object: the device's `active` flag, the IN
 * endpoint's poll counter, the module-level `portal_status` word and `slots`
 * list, and the files figures are loaded from and saved to. Each handler
 * changes these in place; each is proved to do what the value-level model in
 * `Protocol` and `Watcher` says. The watcher's local `mtime` is handed to
 * `Poll` and returned by it.
 */
module Device {
  import opened Bytes
  import opened Wrappers
  import opened Figures
  import opened Protocol
  import opened Watcher

  /** Slot `s` holds `e`: no figure when `e` is `None`, otherwise a figure with
      `e`'s path and bytes. */
  ghost predicate Holds(s: Slot, e: Option<FigureImage>)
    reads s, s.skylander
  {
    if s.skylander == null then e.None?
    else e == Some(FigureImage(s.skylander.path, s.skylander.data))
  }

  class Portal {
    /** `TestHIDDevice.active`: set by the `A` command, echoed in status frames. */
    var active: bool
    /** `InEndpoint.index`: the counter each status frame carries. */
    var counter: byte
    /** The module-level `portal_status`. */
    var status: bv32
    /** The module-level `slots`: sixteen `Slot` objects, never replaced. */
    const slots: seq<Slot>
    /** The file system as the watcher sees it: path to contents. */
    var files: map<string, seq<byte>>
    /** The slots and the figures loaded into them. */
    ghost var Repr: set<object>
    /** What each slot holds, as values. */
    ghost var Table: seq<Option<FigureImage>>

    /** The objects are laid out as the module builds them: sixteen distinct
        slots, and no figure object shared between two slots. */
    ghost predicate Owned()
      reads this`Repr, slots
    {
      && this !in Repr
      && |slots| == SlotCount
      && (forall i :: 0 <= i < SlotCount ==> slots[i] in Repr)
      && (forall i, j :: 0 <= i < j < SlotCount ==> slots[i] != slots[j])
      && (forall i :: 0 <= i < SlotCount && slots[i].skylander != null ==> slots[i].skylander in Repr)
      && (forall i, j :: 0 <= i < SlotCount && 0 <= j < SlotCount && i != j && slots[i].skylander != null
            ==> slots[i].skylander != slots[j].skylander)
    }

    /** The slot table as values: entry `i` is what `slots[i]` holds. */
    ghost predicate Coupled()
      reads this`Repr, this`Table, slots, Repr
    {
      && Owned()
      && |Table| == SlotCount
      && (forall i :: 0 <= i < SlotCount ==> Holds(slots[i], Table[i]))
    }

    /** The layout holds, the counter is below 255, and `portal_status`
        reports exactly the loaded slots. */
    ghost predicate Valid()
      reads this`Repr, this`Table, this`counter, this`status, slots, Repr
    {
      Coupled() && counter < 0xff && Consistent(status, Table)
    }

    /** The module's start: sixteen empty slots, `portal_status = 0`, the device
        inactive and the counter at 0. */
    constructor (files: map<string, seq<byte>>)
      ensures Valid() && fresh(Repr)
      ensures Table == EmptyTable()
      ensures status == 0 && !active && counter == 0 && this.files == files
      ensures forall i :: 0 <= i < |slots| ==> !slots[i].active
    {
      var made: seq<Slot> := [];
      ghost var objects: set<object> := {};
      while |made| < SlotCount
        invariant |made| <= SlotCount
        invariant forall i :: 0 <= i < |made| ==> made[i] in objects && made[i].skylander == null && !made[i].active
        invariant forall i, j :: 0 <= i < j < |made| ==> made[i] != made[j]
        invariant fresh(objects)
      {
        var s := new Slot();
        made := made + [s];
        objects := objects + {s};
      }
      slots := made;
      active := false;
      counter := 0;
      status := 0;
      this.files := files;
      Repr := objects;
      Table := EmptyTable();
      new;
      InitiallyConsistent();
    }

    /** `handle_set_configuration_request`: runs the command in the payload and
        ends exactly as `Dispatch` says, changing the flag and the figures as it
        does; the status word, the counter and the files are untouched. */
    method HandleSetConfiguration(data: seq<byte>) returns (reply: Reply)
      requires Valid()
      modifies this`active, this`Table, Repr
      ensures forall i :: 0 <= i < |slots| ==> slots[i].active == old(slots[i].active)
      ensures Valid() && Repr == old(Repr)
      ensures var h := Dispatch(old(active), old(Table), data);
        reply == h.reply && active == h.active && Table == h.table
      ensures status == old(status) && counter == old(counter)
      ensures files == old(files)
    {
      if |data| == 0 {
        return Raise(PayloadTooShort);
      }
      if data[0] == TagR {
        reply := Respond(ResetFrame());
      } else if data[0] == TagA {
        reply := Activate(data);
      } else if data[0] == TagC || data[0] == TagS {
        reply := Acknowledge;
      } else if data[0] == TagQ {
        reply := Query(data);
      } else if data[0] == TagW {
        reply := Write(data);
      } else {
        reply := Stall;
      }
    }

    /** The `A` branch: the flag set from `data[1]` and echoed in the frame. */
    method Activate(data: seq<byte>) returns (reply: Reply)
      requires Valid() && |data| > 0 && data[0] == TagA
      modifies this`active
      ensures Valid()
      ensures var h := Dispatch(old(active), Table, data);
        reply == h.reply && active == h.active
    {
      if |data| < 2 {
        return Raise(PayloadTooShort);
      }
      active := data[1] != 0;
      reply := Respond(ActivateFrame(active));
    }

    /** The `Q` branch: the block read from the addressed figure, framed, or
        the error the lookup raises. Nothing changes. */
    method Query(data: seq<byte>) returns (reply: Reply)
      requires Valid() && |data| > 0 && data[0] == TagQ
      ensures reply == Dispatch(active, Table, data).reply
    {
      if |data| < 3 {
        return Raise(PayloadTooShort);
      }
      var slot := SlotSelector(data[1]);
      if slot >= |slots| {
        return Raise(SlotOutOfRange);
      }
      var figure := slots[slot].skylander;
      if figure == null {
        return Raise(SlotEmpty);
      }
      var block := figure.ReadBlock(data[2]);
      reply := Respond(QueryFrame(data[1], data[2], block));
    }

    /** The `W` branch: the block spliced into the addressed figure, the
        acknowledgement frame, or the error the lookup raises. */
    method Write(data: seq<byte>) returns (reply: Reply)
      requires Valid() && |data| > 0 && data[0] == TagW
      modifies this`Table, Repr
      ensures forall i :: 0 <= i < |slots| ==> slots[i].active == old(slots[i].active)
      ensures Valid() && Repr == old(Repr)
      ensures active == old(active) && status == old(status) && counter == old(counter)
      ensures files == old(files)
      ensures var h := Dispatch(old(active), old(Table), data);
        reply == h.reply && Table == h.table
    {
      if |data| < 3 {
        return Raise(PayloadTooShort);
      }
      var slot := SlotSelector(data[1]);
      if slot >= |slots| {
        return Raise(SlotOutOfRange);
      }
      var figure := slots[slot].skylander;
      if figure == null {
        return Raise(SlotEmpty);
      }
      figure.WriteBlock(data[2], data[3..]);
      reply := Respond(WriteFrame(data[1], data[2]));
      WriteCommand(active, Table, data);
      RewriteKeepsConsistent(status, Table, slot, figure.data);
      Table := Table[slot := Some(FigureImage(figure.path, figure.data))];
      forall i | 0 <= i < SlotCount && i != slot
        ensures Holds(slots[i], Table[i])
      {
        assert slots[i].skylander != figure;
      }
      assert Holds(slots[slot], Table[slot]);
    }

    /** `handle_data_requested`: sends the status frame with the counter as it
        was, then advances the counter modulo 255. */
    method HandleDataRequested() returns (frame: seq<byte>)
      requires Valid()
      modifies this`counter
      ensures Valid() && Repr == old(Repr)
      ensures frame == StatusFrame(old(status), old(counter), active)
      ensures counter == NextCounter(old(counter))
      ensures status == old(status) && active == old(active) && Table == old(Table)
      ensures files == old(files)
    {
      frame := StatusFrame(status, counter, active);
      counter := NextCounter(counter);
    }

    /** The removal half of the reload loop's body for slot `index`: the status
        steps `observed` records, the figure saved, the slot emptied. */
    method Eject(index: nat, observed: seq<bv32>) returns (seen: seq<bv32>)
      requires Coupled() && 1 <= index < WatchEnd && slots[index].skylander != null
      modifies this`status, this`files, this`Table, slots[index]
      ensures forall i :: 0 <= i < |slots| ==> slots[i].active == old(slots[i].active)
      ensures active == old(active) && counter == old(counter)
      ensures Coupled() && Repr == old(Repr)
      ensures var r := Remove(old(WatchState(status, Table, files, observed)), index);
        status == r.status && Table == r.table && files == r.files && seen == r.observed
    {
      var figure := slots[index].skylander;
      status := Toggled(status, index);
      var changing := status;
      status := NotifyFlipped(status, index);
      seen := observed + [changing, status];
      files := figure.Save(files);
      slots[index].skylander := null;
      Table := Table[index := None];
      forall i | 0 <= i < SlotCount && i != index
        ensures Holds(slots[i], Table[i])
      {
        assert slots[i] != slots[index];
      }
    }

    /** The insertion half of the reload loop's body for slot `index`: a new
        figure read from `path`, then the status steps `observed` records. */
    method Load(index: nat, path: string, observed: seq<bv32>) returns (seen: seq<bv32>)
      requires Coupled() && 1 <= index < WatchEnd && slots[index].skylander == null && path in files
      modifies this`status, this`files, this`Table, this`Repr, slots[index]
      ensures forall i :: 0 <= i < |slots| ==> slots[i].active == old(slots[i].active)
      ensures active == old(active) && counter == old(counter)
      ensures Coupled() && fresh(Repr - old(Repr))
      ensures var r := Insert(old(WatchState(status, Table, files, observed)), index, path);
        status == r.status && Table == r.table && files == r.files && seen == r.observed
    {
      var figure := new Skylander(path, files[path]);
      slots[index].skylander := figure;
      Repr := Repr + {figure};
      Table := Table[index := Some(FigureImage(figure.path, figure.data))];
      status := Marked(status, index);
      var arriving := status;
      status := NotifyFlipped(status, index);
      seen := observed + [arriving, status];
      forall i | 0 <= i < SlotCount && i != index
        ensures Holds(slots[i], Table[i])
      {
        assert slots[i] != slots[index];
      }
    }

    /** The body of the reload loop for slot `index`: the removal, when the
        configured value differs from the loaded figure's path, then the
        insertion, when the slot is empty and the value is non-empty. `loaded`
        is false when the configured file is missing and the pass must stop. */
    method Reconcile(index: nat, config: map<nat, string>, observed: seq<bv32>, ghost start: WatchState) returns (loaded: bool, seen: seq<bv32>)
      requires Coupled() && 1 <= index < WatchEnd && |start.table| == SlotCount
      requires RunPass(start, config, index) == Completed(WatchState(status, Table, files, observed))
      modifies this`status, this`files, this`Table, this`Repr, slots[index]
      ensures active == old(active) && counter == old(counter)
      ensures Coupled() && fresh(Repr - old(Repr))
      ensures var r := ReconcileSlot(old(WatchState(status, Table, files, observed)), config, index);
        && WatchState(status, Table, files, seen) == r.state
        && (loaded <==> r.Completed?)
      ensures loaded ==> RunPass(start, config, index + 1) == Completed(WatchState(status, Table, files, seen))
      ensures !loaded ==> RunPass(start, config, WatchEnd) == LoadFailed(index, WatchState(status, Table, files, seen))
    {
      ghost var before := WatchState(status, Table, files, observed);
      PassAdvance(start, config, index, before);
      var path := ConfigPath(config, index);
      var slot := slots[index];
      seen := observed;
      if slot.skylander != null && Some(slot.skylander.path) != path {
        seen := Eject(index, seen);
      }
      ghost var kept := WatchState(status, Table, files, seen);
      assert kept == if before.table[index].Some? && Some(before.table[index].value.path) != path
                     then Remove(before, index) else before;
      loaded := true;
      if slot.skylander == null && Truthy(path) {
        if path.value !in files {
          return false, seen;
        }
        seen := Load(index, path.value, seen);
      }
    }

    /** The reload loop of `watcher`: slots 1 to 15 reconciled with `config`
        in order, as `RunPass` does, with every status value the host can see
        reported. A configuration that names a missing figure file stops the
        loop at that slot, which `failed` names. */
    method Pass(config: map<nat, string>) returns (failed: Option<nat>, observed: seq<bv32>)
      requires Valid()
      modifies this`status, this`files, this`Table, this`Repr, Repr
      ensures Valid()
      ensures active == old(active) && counter == old(counter)
      ensures var r := RunPass(WatchState(old(status), old(Table), old(files), []), config, WatchEnd);
        && WatchState(status, Table, files, observed) == r.state
        && (failed.Some? <==> r.LoadFailed?)
        && (r.LoadFailed? ==> failed.value == r.slot)
    {
      failed, observed := None, [];
      ghost var start := WatchState(status, Table, files, []);
      for index := 1 to WatchEnd
        invariant Coupled() && counter < 0xff
        invariant active == old(active) && counter == old(counter)
        invariant RunPass(start, config, index) == Completed(WatchState(status, Table, files, observed))
      {
        var loaded;
        loaded, observed := Reconcile(index, config, observed, start);
        if !loaded {
          failed := Some(index);
          break;
        }
      }
      PassKeepsConsistent(start, config, WatchEnd);
    }

    /** One round of `watcher`, whose local `mtime` is passed in and returned:
        when the configuration's modification time `check` is newer than
        `mtime`, run the reload loop and remember `check`; then sleep, during
        which the host sees the status word as it stands. A configuration that
        names a missing figure file stops the pass where `RunPass` stops and
        leaves `mtime` as it was; the watcher does not survive it, so that
        round ends without its closing sleep. */
    method Poll(mtime: real, check: real, config: map<nat, string>) returns (failed: Option<nat>, observed: seq<bv32>, next: real)
      requires Valid()
      modifies this, Repr
      ensures Valid()
      ensures active == old(active) && counter == old(counter)
      ensures check <= mtime ==>
        && failed == None && observed == [status] && next == mtime
        && status == old(status) && Table == old(Table) && files == old(files)
      ensures check > mtime ==>
        var r := RunPass(WatchState(old(status), old(Table), old(files), []), config, WatchEnd);
        && status == r.state.status && Table == r.state.table && files == r.state.files
        && observed == r.state.observed + (if r.Completed? then [status] else [])
        && (failed.Some? <==> r.LoadFailed?)
        && (r.LoadFailed? ==> failed.value == r.slot)
        && next == (if r.Completed? then check else mtime)
    {
      if check <= mtime {
        return None, [status], mtime;
      }
      failed, observed := Pass(config);
      if failed == None {
        observed := observed + [status];
        next := check;
      } else {
        next := mtime;
      }
    }
  }
}
