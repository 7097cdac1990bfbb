/** The rune pouch overlay's text: the amount label drawn for each of the
    pouch's three slots and the tooltip listing the runes it holds. */
module RunepouchOverlay {
  import opened Primitives
  import opened NumberText

  /** The client settings the overlay reads. */
  datatype Varbit =
    | RunePouchAmount1 | RunePouchAmount2 | RunePouchAmount3
    | RunePouchRune1 | RunePouchRune2 | RunePouchRune3

  /** AMOUNT_VARBITS and RUNE_VARBITS: slot i's amount and rune id. */
  const AmountVarbits: seq<Varbit> := [RunePouchAmount1, RunePouchAmount2, RunePouchAmount3]
  const RuneVarbits: seq<Varbit> := [RunePouchRune1, RunePouchRune2, RunePouchRune3]

  /** formatNumber: the plain number below 1000, else thousands and "K". */
  function FormatNumber(amount: int32): (text: string)
    ensures LabelUnit(text) == if amount < 1000 then 1 else 1000
  {
    if amount < 1000 then IntToString(amount as int) else Abbreviate(amount as int, 'K')
  }

  /** The label reads as the amount truncated to its unit. */
  lemma FormatNumberReadsAs(amount: int32)
    ensures ReadsAs(FormatNumber(amount), amount as int)
  {
    if amount < 1000 {
      PlainReadsAs(amount as int);
    } else {
      AbbreviateReadsAs(amount as int, 'K');
    }
  }

  /** One pouch slot as the client settings describe it. */
  datatype Slot = Slot(index: nat, amount: int32, runeId: int32)

  /** The three slots, in table order. */
  function PouchSlots(setting: Varbit -> int32): (slots: seq<Slot>)
    ensures |slots| == |AmountVarbits| == |RuneVarbits| == 3
    ensures forall i :: 0 <= i < 3 ==>
      slots[i] == Slot(i, setting(AmountVarbits[i]), setting(RuneVarbits[i]))
  {
    [ Slot(0, setting(AmountVarbits[0]), setting(RuneVarbits[0])),
      Slot(1, setting(AmountVarbits[1]), setting(RuneVarbits[1])),
      Slot(2, setting(AmountVarbits[2]), setting(RuneVarbits[2])) ]
  }

  /** The slots holding runes (amount above 0), in slot order. */
  function Occupied(slots: seq<Slot>): seq<Slot> {
    if slots == [] then []
    else
      var last := slots[|slots| - 1];
      Occupied(slots[..|slots| - 1]) + (if last.amount > 0 then [last] else [])
  }

  /** The tooltip line for one slot: the full amount, then the rune's name in
      yellow, closed by a line break. */
  function Entry(slot: Slot, runeName: int32 -> string): string {
    IntToString(slot.amount as int) + " <col=ffff00>" + runeName(slot.runeId) + "</col></br>"
  }

  /** A tooltip line opens with a number that reads back as the slot's full
      amount and ends with the closing tag and the line break. */
  lemma EntryLayout(slot: Slot, runeName: int32 -> string)
    ensures var line, n := Entry(slot, runeName), |IntToString(slot.amount as int)|;
      && n <= |line| && ParseInt(line[..n]) == Some(slot.amount as int)
      && |line| >= 11 && line[|line| - 11..] == "</col></br>"
  {
    var amount := IntToString(slot.amount as int);
    assert Entry(slot, runeName)[..|amount|] == amount;
    IntToStringRoundTrip(slot.amount as int);
  }

  /** The tooltip lines of the given slots, in order. */
  function Lines(slots: seq<Slot>, runeName: int32 -> string): (lines: seq<string>)
    ensures |lines| == |slots|
    ensures forall i :: 0 <= i < |slots| ==> lines[i] == Entry(slots[i], runeName)
  {
    seq(|slots|, i requires 0 <= i < |slots| => Entry(slots[i], runeName))
  }

  /** Strings joined end to end, in order. */
  function Concat(parts: seq<string>): string {
    if parts == [] then "" else Concat(parts[..|parts| - 1]) + parts[|parts| - 1]
  }

  /** The tooltip lines of the given slots, concatenated in order. */
  function Entries(slots: seq<Slot>, runeName: int32 -> string): string {
    Concat(Lines(slots, runeName))
  }

  /** The tooltip: one line per occupied slot, in slot order. */
  function Tooltip(slots: seq<Slot>, runeName: int32 -> string): (tooltip: string)
    ensures tooltip == "" <==> Occupied(slots) == []
  {
    EntriesEmpty(Occupied(slots), runeName);
    Entries(Occupied(slots), runeName)
  }

  /** The amount label drawn for a slot. */
  datatype SlotLabel = SlotLabel(slot: nat, text: string)

  /** The amount label drawn over a slot: its amount, formatted. */
  function AmountLabel(slot: Slot): SlotLabel {
    SlotLabel(slot.index, FormatNumber(slot.amount))
  }

  /** The amount labels of the given slots, in order. */
  function AmountLabels(slots: seq<Slot>): (labels: seq<SlotLabel>)
    ensures |labels| == |slots|
    ensures forall j :: 0 <= j < |slots| ==> labels[j] == AmountLabel(slots[j])
  {
    seq(|slots|, j requires 0 <= j < |slots| => AmountLabel(slots[j]))
  }

  /** The rune ids of the given slots, in order. */
  function RuneIds(slots: seq<Slot>): (ids: seq<int32>)
    ensures |ids| == |slots|
    ensures forall j :: 0 <= j < |slots| ==> ids[j] == slots[j].runeId
  {
    if slots == [] then [] else RuneIds(slots[..|slots| - 1]) + [slots[|slots| - 1].runeId]
  }

  /** The slot loop of render: for each slot in order, skip it when its amount
      is not positive; otherwise draw its amount label, append its tooltip
      line and, when icons are shown, draw its rune's icon. Returns the
      tooltip text, the labels drawn and the rune ids whose icons are looked
      up (an icon is drawn when the image cache has one); the tooltip does not
      depend on whether icons are shown. */
  method RenderSlots(setting: Varbit -> int32, runeName: int32 -> string, showIcons: bool)
    returns (tooltip: string, labels: seq<SlotLabel>, icons: seq<int32>)
    ensures tooltip == Tooltip(PouchSlots(setting), runeName)
    ensures labels == AmountLabels(Occupied(PouchSlots(setting)))
    ensures icons == if showIcons then RuneIds(Occupied(PouchSlots(setting))) else []
  {
    ghost var slots := PouchSlots(setting);
    ghost var occupied: seq<Slot> := [];
    tooltip, labels, icons := "", [], [];
    for i := 0 to |AmountVarbits|
      invariant occupied == Occupied(slots[..i])
      invariant tooltip == Entries(occupied, runeName)
      invariant labels == AmountLabels(occupied)
      invariant icons == if showIcons then RuneIds(occupied) else []
    {
      var amount := setting(AmountVarbits[i]);
      var runeId := setting(RuneVarbits[i]);
      var slot := Slot(i, amount, runeId);
      PouchStep(setting, i);
      if amount > 0 {
        OccupiedGrows(occupied, slot, runeName);
        occupied := occupied + [slot];
        labels := labels + [AmountLabel(slot)];
        tooltip := tooltip + Entry(slot, runeName);
        if showIcons {
          icons := icons + [runeId];
        }
      }
    }
    assert slots[..3] == slots;
  }

  /** Slot i of the pouch, read from the settings, decides what the loop's
      i-th step adds to the occupied slots. */
  lemma PouchStep(setting: Varbit -> int32, i: nat)
    requires i < 3
    ensures var slot := Slot(i, setting(AmountVarbits[i]), setting(RuneVarbits[i]));
      Occupied(PouchSlots(setting)[..i + 1]) ==
        Occupied(PouchSlots(setting)[..i]) + if slot.amount > 0 then [slot] else []
  {
    var slots := PouchSlots(setting);
    assert slots[..i + 1] == slots[..i] + [slots[i]];
    OccupiedSnoc(slots[..i], slots[i]);
  }

  // ---------------------------------------------------------------- properties

  lemma {:induction false} OccupiedAppend(a: seq<Slot>, b: seq<Slot>)
    ensures Occupied(a + b) == Occupied(a) + Occupied(b)
    decreases |b|
  {
    if b == [] {
      assert a + b == a;
    } else {
      var b' := b[..|b| - 1];
      assert (a + b)[..|a + b| - 1] == a + b';
      OccupiedAppend(a, b');
    }
  }

  lemma {:induction false} ConcatAppend(a: seq<string>, b: seq<string>)
    ensures Concat(a + b) == Concat(a) + Concat(b)
    decreases |b|
  {
    if b == [] {
      assert a + b == a;
    } else {
      var b' := b[..|b| - 1];
      assert (a + b)[..|a + b| - 1] == a + b';
      ConcatAppend(a, b');
    }
  }

  lemma EntriesAppend(a: seq<Slot>, b: seq<Slot>, runeName: int32 -> string)
    ensures Entries(a + b, runeName) == Entries(a, runeName) + Entries(b, runeName)
  {
    var la, lb, lab := Lines(a, runeName), Lines(b, runeName), Lines(a + b, runeName);
    forall k | 0 <= k < |lab|
      ensures lab[k] == (la + lb)[k]
    {
      if k < |a| {
        assert (a + b)[k] == a[k];
      } else {
        assert (a + b)[k] == b[k - |a|];
      }
    }
    assert lab == la + lb;
    ConcatAppend(la, lb);
  }

  lemma OccupiedSnoc(slots: seq<Slot>, slot: Slot)
    ensures Occupied(slots + [slot]) == Occupied(slots) + if slot.amount > 0 then [slot] else []
  {
    assert (slots + [slot])[..|slots|] == slots;
  }

  /** What one more occupied slot adds to the tooltip, the labels and the icons. */
  lemma OccupiedGrows(occupied: seq<Slot>, slot: Slot, runeName: int32 -> string)
    ensures Entries(occupied + [slot], runeName) == Entries(occupied, runeName) + Entry(slot, runeName)
    ensures AmountLabels(occupied + [slot]) == AmountLabels(occupied) + [AmountLabel(slot)]
    ensures RuneIds(occupied + [slot]) == RuneIds(occupied) + [slot.runeId]
  {
    assert (occupied + [slot])[..|occupied|] == occupied;
    EntriesAppend(occupied, [slot], runeName);
    EntriesSingle(slot, runeName);
  }

  /** Every line is non-empty, so the lines of some slots are empty exactly
      when there are no slots. */
  lemma EntriesEmpty(slots: seq<Slot>, runeName: int32 -> string)
    ensures Entries(slots, runeName) == "" <==> slots == []
  {
    if slots != [] {
      var init, last := slots[..|slots| - 1], slots[|slots| - 1];
      assert slots == init + [last];
      EntriesAppend(init, [last], runeName);
      EntriesSingle(last, runeName);
      assert |Entry(last, runeName)| > 0;
    }
  }

  lemma OccupiedSingle(slot: Slot)
    ensures Occupied([slot]) == if slot.amount > 0 then [slot] else []
  {
    assert [slot][..0] == [];
  }

  lemma EntriesSingle(slot: Slot, runeName: int32 -> string)
    ensures Entries([slot], runeName) == Entry(slot, runeName)
  {
    var lines := Lines([slot], runeName);
    assert lines[..0] == [];
    assert Concat(lines) == Concat([]) + lines[0];
  }

  /** The occupied slots of a pouch are those before a slot, then that slot
      if it is occupied, then those after it. */
  lemma OccupiedSplit(before: seq<Slot>, slot: Slot, after: seq<Slot>)
    ensures Occupied(before + [slot] + after) == Occupied(before) + Occupied([slot]) + Occupied(after)
  {
    OccupiedAppend(before + [slot], after);
    OccupiedAppend(before, [slot]);
  }

  /** A slot whose amount is not positive contributes nothing: the tooltip is
      the same with that slot removed. */
  lemma EmptySlotContributesNothing(before: seq<Slot>, slot: Slot, after: seq<Slot>, runeName: int32 -> string)
    requires slot.amount <= 0
    ensures Tooltip(before + [slot] + after, runeName) == Tooltip(before + after, runeName)
  {
    OccupiedSplit(before, slot, after);
    OccupiedSingle(slot);
    OccupiedAppend(before, after);
    assert Occupied(before) + [] + Occupied(after) == Occupied(before) + Occupied(after);
    assert Occupied(before + [slot] + after) == Occupied(before + after);
  }

  /** A slot with a positive amount contributes exactly its own line, between
      the lines of the slots before it and those after it. */
  lemma OccupiedSlotContributesEntry(before: seq<Slot>, slot: Slot, after: seq<Slot>, runeName: int32 -> string)
    requires slot.amount > 0
    ensures Tooltip(before + [slot] + after, runeName) ==
      Tooltip(before, runeName) + Entry(slot, runeName) + Tooltip(after, runeName)
  {
    OccupiedSplit(before, slot, after);
    OccupiedSingle(slot);
    var done, rest := Occupied(before), Occupied(after);
    EntriesAppend(done + [slot], rest, runeName);
    EntriesAppend(done, [slot], runeName);
    EntriesSingle(slot, runeName);
  }

  /** A pouch whose slots are all empty has an empty tooltip. */
  lemma {:induction false} EmptyPouchNoTooltip(slots: seq<Slot>, runeName: int32 -> string)
    requires forall i :: 0 <= i < |slots| ==> slots[i].amount <= 0
    ensures Tooltip(slots, runeName) == ""
    decreases |slots|
  {
    if slots != [] {
      EmptyPouchNoTooltip(slots[..|slots| - 1], runeName);
    }
  }
}
