/** What fat16_list_root shows of a volume. */
module FatListing {
  import opened Bytes
  import opened FatVolume
  import opened FatDelete
  import opened FatWrite
  import opened FatNames

  // Neither the volume-label bit nor any of the long-name bits is set.
  predicate Shown(s: Slot) { SlotAttr(s) / 8 % 2 == 0 && SlotAttr(s) % 16 == 0 }

  function LineOf(s: Slot): (seq<byte>, u32) { (ListText(SlotName(s)), SlotSize(s)) }

  // The line for one slot, if it is shown.
  function SlotLines(s: Slot): seq<(seq<byte>, u32)> {
    if s[0] != DELETED && Shown(s) then [LineOf(s)] else []
  }

  function Listing(dir: seq<Slot>, from: nat): seq<(seq<byte>, u32)>
    requires from <= |dir|
    decreases |dir| - from
  {
    if from == |dir| || dir[from][0] == 0 then []
    else SlotLines(dir[from]) + Listing(dir, from + 1)
  }

  lemma ListingStep(dir: seq<Slot>, k: nat, lines: seq<(seq<byte>, u32)>)
    requires k < |dir| && dir[k][0] != 0
    ensures lines + Listing(dir, k) == (lines + SlotLines(dir[k])) + Listing(dir, k + 1)
  {
  }

  predicate Listed(s: Slot) { Live(s) && Shown(s) }

  // The slots the listing shows, in order.
  function ShownSlots(dir: seq<Slot>, from: nat): seq<nat>
    requires from <= |dir|
    decreases |dir| - from
  {
    if from == |dir| then []
    else if Listed(dir[from]) then [from] + ShownSlots(dir, from + 1)
    else ShownSlots(dir, from + 1)
  }

  predicate ShownFrom(dir: seq<Slot>, ks: seq<nat>, from: nat) {
    && (forall j :: 0 <= j < |ks| ==> from <= ks[j] < |dir| && Listed(dir[ks[j]]))
    && (forall j, l :: 0 <= j < l < |ks| ==> ks[j] < ks[l])
  }

  lemma ShownCons(dir: seq<Slot>, ks: seq<nat>, from: nat)
    requires from < |dir| && ShownFrom(dir, ks, from + 1) && Listed(dir[from])
    ensures ShownFrom(dir, [from] + ks, from)
  {
    var all := [from] + ks;
    forall j | 0 <= j < |all| ensures from <= all[j] < |dir| && Listed(dir[all[j]]) {
      if j > 0 { assert all[j] == ks[j - 1]; }
    }
    forall j, l | 0 <= j < l < |all| ensures all[j] < all[l] {
      assert all[l] == ks[l - 1];
      if j > 0 { assert all[j] == ks[j - 1]; }
    }
  }

  lemma {:induction false} ShownSlotsMeaning(dir: seq<Slot>, from: nat)
    requires from <= |dir|
    ensures ShownFrom(dir, ShownSlots(dir, from), from)
    decreases |dir| - from
  {
    if from == |dir| {
    } else {
      var rest := ShownSlots(dir, from + 1);
      ShownSlotsMeaning(dir, from + 1);
      if Listed(dir[from]) { ShownCons(dir, rest, from); }
    }
  }

  lemma {:induction false} ShownSlotIndex(dir: seq<Slot>, from: nat, i: nat) returns (j: nat)
    requires from <= i < |dir| && Live(dir[i]) && Shown(dir[i])
    ensures j < |ShownSlots(dir, from)| && ShownSlots(dir, from)[j] == i
    decreases |dir| - from
  {
    if i == from {
      j := 0;
    } else {
      j := ShownSlotIndex(dir, from + 1, i);
      if Listed(dir[from]) { j := j + 1; }
    }
  }

  lemma {:induction false} NothingAfterEnd(dir: seq<Slot>, from: nat)
    requires from <= |dir| && forall i :: from <= i < |dir| ==> !Live(dir[i])
    ensures ShownSlots(dir, from) == []
    decreases |dir| - from
  {
    if from == |dir| {
    } else {
      NothingAfterEnd(dir, from + 1);
    }
  }

  ghost predicate LinesOf(dir: seq<Slot>, ls: seq<(seq<byte>, u32)>, ks: seq<nat>) {
    |ls| == |ks| && forall j :: 0 <= j < |ks| ==> ks[j] < |dir| && ls[j] == LineOf(dir[ks[j]])
  }

  lemma LinesCons(dir: seq<Slot>, ls: seq<(seq<byte>, u32)>, ks: seq<nat>, k: nat)
    requires LinesOf(dir, ls, ks) && k < |dir|
    ensures LinesOf(dir, [LineOf(dir[k])] + ls, [k] + ks)
  {
  }

  // On a tidy directory the listing has one line per shown slot, in slot order.
  lemma {:induction false} ListingMeaning(dir: seq<Slot>, from: nat)
    requires from <= |dir| && Tidy(dir)
    ensures LinesOf(dir, Listing(dir, from), ShownSlots(dir, from))
    decreases |dir| - from
  {
    if from == |dir| {
    } else {
      if dir[from][0] == 0 {
        NothingAfterEnd(dir, from + 1);
      } else {
        ListingMeaning(dir, from + 1);
        if Listed(dir[from]) {
          LinesCons(dir, Listing(dir, from + 1), ShownSlots(dir, from + 1), from);
        } else {
          assert Listing(dir, from) == [] + Listing(dir, from + 1) == Listing(dir, from + 1);
        }
      }
    }
  }

  // On a tidy directory: one line for each slot that is neither unused nor deleted and has
  // the low four attribute bits clear, in slot order, with the text of its first eleven
  // bytes and the size its last four bytes spell.
  lemma ListingIsExact(dir: seq<Slot>) returns (ks: seq<nat>)
    requires Tidy(dir)
    ensures |ks| == |Listing(dir, 0)| && forall j, l :: 0 <= j < l < |ks| ==> ks[j] < ks[l]
    ensures forall k: nat :: k in ks <==>
      k < |dir| && dir[k][0] != 0 && dir[k][0] != 0xE5 && dir[k][11] % 16 == 0
    ensures forall j :: 0 <= j < |ks| ==> ks[j] < |dir| && Listing(dir, 0)[j].0 == ListText(dir[ks[j]][..11])
    ensures forall j :: 0 <= j < |ks| ==>
      Listing(dir, 0)[j].1 == dir[ks[j]][28] as int + 0x100 * (dir[ks[j]][29] as int)
        + 0x1_0000 * (dir[ks[j]][30] as int) + 0x100_0000 * (dir[ks[j]][31] as int)
  {
    ks := ShownSlots(dir, 0);
    ListingMeaning(dir, 0);
    ShownSlotsMeaning(dir, 0);
    forall k: nat | k < |dir| && Listed(dir[k]) ensures k in ks {
      var j := ShownSlotIndex(dir, 0, k);
    }
  }

  // Every live slot is shown and has a canonical name.
  ghost predicate Plain(dir: seq<Slot>) {
    forall i :: 0 <= i < |dir| && Live(dir[i]) ==> Shown(dir[i]) && Canonical(SlotName(dir[i]))
  }

  lemma LineSlot(v: Volume, j: nat) returns (i: nat)
    requires Tidy(v.dir) && j < |Listing(v.dir, 0)|
    ensures |Listing(v.dir, 0)| == |ShownSlots(v.dir, 0)| && i == ShownSlots(v.dir, 0)[j]
    ensures i < |v.dir| && Live(v.dir[i])
    ensures Listing(v.dir, 0)[j] == (ListText(SlotName(v.dir[i])), SlotSize(v.dir[i]))
  {
    ListingMeaning(v.dir, 0);
    ShownSlotsMeaning(v.dir, 0);
    i := ShownSlots(v.dir, 0)[j];
  }

  lemma SlotLine(v: Volume, i: nat) returns (j: nat)
    requires Tidy(v.dir) && i < |v.dir| && Live(v.dir[i]) && Shown(v.dir[i])
    ensures j < |Listing(v.dir, 0)|
    ensures Listing(v.dir, 0)[j] == (ListText(SlotName(v.dir[i])), SlotSize(v.dir[i]))
  {
    ListingMeaning(v.dir, 0);
    j := ShownSlotIndex(v.dir, 0, i);
  }

  lemma FileSize(v: Volume, chs: seq<seq<nat>>, i: nat)
    requires WellFormedWith(v, chs) && i < |v.dir| && Live(v.dir[i])
    ensures SlotName(v.dir[i]) in Files(v) && |Files(v)[SlotName(v.dir[i])]| == SlotSize(v.dir[i])
  {
    FileAt(v, chs, i);
    assert SlotOk(v, i, chs[i]);
  }

  // The text is a C string that, typed back, names a file of that size.
  ghost predicate TextNames(v: Volume, text: seq<byte>, size: u32)
    requires Shape(v)
  {
    && NulFree(text)
    && FatName(text) in Files(v) && |Files(v)[FatName(text)]| == size
  }

  lemma LineNamesFile(v: Volume, name: seq<byte>)
    requires Shape(v) && Canonical(name) && name in Files(v)
    ensures TextNames(v, ListText(name), |Files(v)[name]|)
    ensures FatName(ListText(name)) == name
  {
    ListTextOf(name);
    ListedNameRoundTrips(name);
  }

  lemma LinesDiffer(v: Volume, chs: seq<seq<nat>>, j: nat, l: nat)
    requires WellFormedWith(v, chs) && Plain(v.dir) && j < l < |Listing(v.dir, 0)|
    ensures Listing(v.dir, 0)[j].0 != Listing(v.dir, 0)[l].0
  {
    var i := LineSlot(v, j);
    var k := LineSlot(v, l);
    ShownSlotsMeaning(v.dir, 0);
    FileSize(v, chs, i);
    FileSize(v, chs, k);
    LineNamesFile(v, SlotName(v.dir[i]));
    LineNamesFile(v, SlotName(v.dir[k]));
    assert i < k && SlotName(v.dir[i]) != SlotName(v.dir[k]);
  }

  // When every live slot is shown and has a canonical name, the lines name exactly the
  // files, each once, with their sizes, and each text leads back to its file.
  lemma ListingShowsFiles(v: Volume, chs: seq<seq<nat>>)
    requires WellFormedWith(v, chs) && Plain(v.dir)
    ensures var lines := Listing(v.dir, 0);
      && (forall j :: 0 <= j < |lines| ==> TextNames(v, lines[j].0, lines[j].1))
      && (forall j, l :: 0 <= j < l < |lines| ==> lines[j].0 != lines[l].0)
      && (forall n :: n in Files(v) ==> exists j :: 0 <= j < |lines| && lines[j].0 == ListText(n))
  {
    var lines := Listing(v.dir, 0);
    forall j | 0 <= j < |lines| ensures TextNames(v, lines[j].0, lines[j].1) {
      var i := LineSlot(v, j);
      FileSize(v, chs, i);
      LineNamesFile(v, SlotName(v.dir[i]));
    }
    forall j, l | 0 <= j < l < |lines| ensures lines[j].0 != lines[l].0 {
      LinesDiffer(v, chs, j, l);
    }
    forall n | n in Files(v) ensures exists j :: 0 <= j < |lines| && lines[j].0 == ListText(n) {
      var i :| 0 <= i < |v.dir| && Live(v.dir[i]) && SlotName(v.dir[i]) == n;
      var j := SlotLine(v, i);
    }
  }

  lemma DeleteKeepsPlain(v: Volume, name: Name)
    requires Plain(v.dir)
    ensures Plain(Delete(v, name).0.dir)
  {
  }

  lemma PlainUpdate(dir: seq<Slot>, j: nat, s: Slot)
    requires Plain(dir) && j < |dir| && SlotAttr(s) == ARCHIVE && Canonical(SlotName(s))
    ensures Plain(dir[j := s])
  {
  }

  lemma CreateKeepsPlain(v: Volume, name: Name, data: seq<byte>)
    requires Shape(v) && |data| < 0x1_0000_0000
    requires Below(Taken(v.fat, |data|, v.clusterBytes), |v.clusters|)
    requires Plain(v.dir) && Canonical(name)
    ensures Plain(Create(v, name, data).0.dir)
  {
    var j := FindFree(v.dir, 0);
    if EnoughFree(v, |data|) && 0 <= j < |v.dir| {
      PlainUpdate(v.dir, j, MakeSlot(name, Taken(v.fat, |data|, v.clusterBytes)[0], |data|));
    }
  }

  // Writes of space-free names and deletes keep a directory of the kind above.
  lemma WriteKeepsPlain(v: Volume, name: CString, data: seq<byte>)
    requires Shape(v) && |data| < 0x1_0000_0000 && Fits(v, FatName(name), |data|)
    requires Plain(v.dir) && SpaceFree(name)
    ensures Plain(Write(v, FatName(name), data).0.dir)
  {
    DeleteKeepsPlain(v, FatName(name));
    SpaceFreeIsCanonical(name);
    CreateKeepsPlain(Delete(v, FatName(name)).0, FatName(name), data);
  }
}
