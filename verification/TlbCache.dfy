/** `TLBCache` as the object it is: an array of slots, two dictionaries and the CP0 registers it updates. */
module TlbCaches {
  import opened Common
  import opened Bits
  import opened TlbEncoding
  import opened TlbModel

  class TlbCache {
    const entries: array<Option<Entry>>
    var vpn2Dictionary: map<Vpn2, Entry>
    var globalVpn2Dictionary: map<Vpn2, Entry>
    var disableTlb: bool
    var duplicateEntryError: bool
    var regs: Registers

    predicate Valid() { entries.Length == SLOTS }

    function Now(): Tlb
      requires Valid()
      reads this, entries
    {
      Tlb(regs, entries[..], vpn2Dictionary, globalVpn2Dictionary, disableTlb, duplicateEntryError)
    }

    constructor (regs: Registers)
      ensures Valid() && fresh(entries)
      ensures Now() == Tlb(regs, EmptySlots(), map[], map[], false, false)
    {
      entries := new Option<Entry>[SLOTS](_ => None);
      vpn2Dictionary, globalVpn2Dictionary := map[], map[];
      disableTlb, duplicateEntryError, this.regs := false, false, regs;
      new;
      assert entries[..] == EmptySlots();
    }

    method Initialize()
      requires Valid()
      modifies this, entries
      ensures Now() == TlbModel.Initialize(old(Now()))
      ensures regs == old(regs).(random := 31) && vpn2Dictionary == map[] && globalVpn2Dictionary == map[]
      ensures forall i | 0 <= i < entries.Length :: entries[i] == None
    {
      regs := regs.(random := 31);
      forall i | 0 <= i < SLOTS {
        entries[i] := None;
      }
      vpn2Dictionary, globalVpn2Dictionary := map[], map[];
      assert entries[..] == EmptySlots();
    }

    method UpdateRandom()
      requires Valid()
      modifies this`regs
      ensures Now() == TlbModel.UpdateRandom(old(Now()))
    {
      if CheckSafeEntry(regs.random, regs.wired) {
        regs := regs.(random := Up(regs.wired));
      } else {
        regs := regs.(random := Up(regs.random));
        if regs.random >= 47 {
          regs := regs.(random := Up(regs.wired));
        }
      }
    }

    /** The dictionaries' part of `AddEntry`: a key already present is caught and flagged. */
    method IndexEntry(entry: Entry)
      requires Valid()
      modifies this`vpn2Dictionary, this`globalVpn2Dictionary, this`duplicateEntryError
      ensures Now() == Index(old(Now()), entry)
    {
      if entry.IsGlobal() {
        if entry.vpn in globalVpn2Dictionary {
          duplicateEntryError := true;
        } else {
          globalVpn2Dictionary := globalVpn2Dictionary[entry.vpn := entry];
        }
      } else {
        if entry.vpn in vpn2Dictionary {
          duplicateEntryError := true;
        } else {
          vpn2Dictionary := vpn2Dictionary[entry.vpn := entry];
        }
      }
    }

    method AddEntry(index: int, entry: Entry) returns (status: Status)
      requires Valid()
      modifies this, entries
      ensures Result(Now(), status) == TlbModel.AddEntry(old(Now()), index, entry)
      ensures status == if 0 <= index < 48 then Done else IndexError
      ensures if status == Done then entries[..] == old(entries[..])[index := Some(entry)] else Now() == old(Now())
      ensures status == Done ==> regs == old(regs).(random := NextRandom(old(regs).random, regs.wired))
    {
      if !(0 <= index < SLOTS) {
        return IndexError;
      }
      entries[index] := Some(entry);
      assert Now() == old(Now()).(slots := old(Now()).slots[index := Some(entry)]);
      IndexEntry(entry);
      UpdateRandom();
      status := Done;
    }

    method RemoveEntry(index: int) returns (status: Status)
      requires Valid()
      modifies this`vpn2Dictionary, entries
      ensures Result(Now(), status) == TlbModel.RemoveEntry(old(Now()), index)
      ensures status == Done <==> 0 <= index < 48 && old(entries[..])[index].Some?
      ensures if status == Done then entries[..] == old(entries[..])[index := None] else Now() == old(Now())
    {
      if !(0 <= index < SLOTS) {
        return IndexError;
      }
      if entries[index].None? {
        return NoMatchError;
      }
      vpn2Dictionary := vpn2Dictionary - {entries[index].value.vpn};
      entries[index] := None;
      assert Now().slots == old(Now()).slots[index := None];
      status := Done;
    }

    method Write() returns (status: Status)
      requires Valid()
      modifies this, entries
      ensures Result(Now(), status) == TlbModel.Write(old(Now()))
      ensures old(disableTlb) ==> status == Done && Now() == old(Now())
      ensures status == ModificationError <==> !old(disableTlb) && old(regs).index % 0x100 <= old(regs).wired
      ensures status == ModificationError ==> Now() == old(Now())
      ensures !old(disableTlb) && old(regs).wired < old(regs).index < 48 ==>
                && status == Done && entries[..] == old(entries[..])[old(regs).index := Some(CreateEntryFromRegs(old(regs)))]
                && regs.random == NextRandom(NextRandom(old(regs).random, regs.wired), regs.wired)
    {
      if disableTlb {
        return Done;
      }
      if CheckSafeEntry(regs.index, regs.wired) {
        return ModificationError;
      }
      UpdateRandom();
      status := AddEntry(ToInt32(regs.index), CreateEntryFromRegs(regs));
    }

    method WriteRandom() returns (status: Status)
      requires Valid()
      modifies this, entries
      ensures Result(Now(), status) == TlbModel.WriteRandom(old(Now()))
      ensures old(disableTlb) ==> status == Done && Now() == old(Now())
    {
      if disableTlb {
        return Done;
      }
      UpdateRandom();
      status := AddEntry(ToInt32(regs.random), CreateEntryFromRegs(regs));
    }

    method Read()
      requires Valid()
      modifies this`regs
      ensures Now() == TlbModel.Read(old(Now()))
      ensures regs.random == if disableTlb then old(regs).random else NextRandom(old(regs).random, regs.wired)
      ensures old(disableTlb) ==> regs == old(regs)
    {
      if disableTlb {
        return;
      }
      UpdateRandom();
      var entry := GetEntry(Now(), ToInt32(regs.index));
      if entry.Some? {
        var e := entry.value;
        regs := regs.(pageMask := MaskFromSize(e.size) % TWO64, entryHi := EncodeHi(e.vpn) % TWO64,
                      entryLo0 := EncodeLo(e.odd) % TWO64, entryLo1 := EncodeLo(e.even) % TWO64);
      }
    }

    method GetIndex(v: Vpn2) returns (k: nat)
      requires Valid()
      ensures k == FirstEqual(Now().slots, v, 0)
    {
      k := 0;
      while k < SLOTS && !(entries[k].Some? && entries[k].value.EqualsPage(v))
        invariant k <= SLOTS && FirstEqual(entries[..], v, k) == FirstEqual(entries[..], v, 0)
      {
        k := k + 1;
      }
    }

    method Probe() returns (status: Status)
      requires Valid()
      modifies this`regs
      ensures Result(Now(), status) == TlbModel.Probe(old(Now()))
      ensures regs.random == if disableTlb then old(regs).random else NextRandom(old(regs).random, regs.wired)
      ensures old(disableTlb) ==> status == Done && regs == old(regs)
    {
      if disableTlb {
        return Done;
      }
      UpdateRandom();
      var v := DecodeHi(regs.entryHi);
      if v in vpn2Dictionary {
        var k := GetIndex(v);
        if k == SLOTS {
          return NoMatchError;
        }
        regs := regs.(index := k);
      } else {
        regs := regs.(index := 0x8000_0000);
      }
      status := Done;
    }

    method TranslateVirtualAddress(virtualAddress: int) returns (status: Status, physical: int)
      requires Valid()
      modifies this`disableTlb
      ensures Translation(Now(), status, physical) == Translate(old(Now()), virtualAddress)
      ensures var v := DecodeHi(regs.entryHi);
        !duplicateEntryError && v !in globalVpn2Dictionary && v !in vpn2Dictionary ==>
          status == RefillError && Now() == old(Now())
      ensures duplicateEntryError ==> status == ShutDown && physical == -1 && disableTlb
    {
      if duplicateEntryError {
        disableTlb := true;
        return ShutDown, -1;
      }
      var v, size := DecodeHi(regs.entryHi), SizeFromMask(regs.pageMask);
      var entry := if v in globalVpn2Dictionary then Some(globalVpn2Dictionary[v])
                   else if v in vpn2Dictionary then Some(vpn2Dictionary[v]) else None;
      if entry.None? {
        return RefillError, 0;
      }
      var isOddPage := !(And(virtualAddress, size) > 0);
      var frame := if isOddPage then entry.value.odd else entry.value.even;
      if frame.valid {
        status, physical := Done, MapPhysical(frame, size, virtualAddress);
      } else {
        status, physical := RefillError, 0;
      }
    }

    method SetWired(wired: u64)
      requires Valid()
      modifies this`regs
      ensures Now() == if disableTlb then old(Now())
                       else old(Now()).(regs := old(regs).(wired := wired % 0x1_0000_0000, random := 46))
    {
      if disableTlb {
        return;
      }
      regs := regs.(wired := wired % 0x1_0000_0000, random := 46);
    }
  }
}
