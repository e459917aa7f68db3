/** The TLB: 48 slots, two dictionaries that index them by virtual page, and the replacement rule. */
module TlbModel {
  import opened Common
  import opened Bits
  import opened TlbEncoding

  datatype Entry = Entry(size: int, vpn: Vpn2, odd: PageFrame, even: PageFrame) {
    predicate IsGlobal() { odd.isGlobal && even.isGlobal }

    /** `TLBEntry.Equals(VirtualPageNumber2)`: a global entry equals any page. */
    predicate EqualsPage(other: Vpn2) { IsGlobal() || vpn == other }
  }

  const SLOTS := 48

  type Slots = s: seq<Option<Entry>> | |s| == SLOTS witness seq(SLOTS, _ => None)

  datatype Registers = Registers(index: u64, random: u64, wired: u64, entryHi: u64,
                                 entryLo0: u64, entryLo1: u64, pageMask: u64)

  datatype Tlb = Tlb(regs: Registers, slots: Slots, local: map<Vpn2, Entry>, global: map<Vpn2, Entry>,
                     disabled: bool, duplicate: bool)

  /** How a call ends. */
  datatype Status = Done | ModificationError | RefillError | IndexError | NoMatchError | ShutDown

  datatype Result = Result(tlb: Tlb, status: Status)

  /* -------- registers -------- */

  /** The low byte of a register against Wired. */
  predicate CheckSafeEntry(register: u64, wired: u64) { register % 0x100 <= wired }

  function Up(x: u64): u64 { (x + 1) % TWO64 }

  function NextRandom(random: u64, wired: u64): u64 {
    if CheckSafeEntry(random, wired) then Up(wired)
    else if Up(random) >= 47 then Up(wired) else Up(random)
  }

  function UpdateRandom(t: Tlb): Tlb { t.(regs := t.regs.(random := NextRandom(t.regs.random, t.regs.wired))) }

  function CreateEntryFromRegs(r: Registers): Entry {
    Entry(SizeFromMask(r.pageMask), DecodeHi(r.entryHi), DecodeLo(r.entryLo0), DecodeLo(r.entryLo1))
  }

  /* -------- operations -------- */

  function EmptySlots(): Slots { seq(SLOTS, _ => None) }

  /** `Initialize`, and `FlushAll` unless the TLB is disabled; neither clears the two error flags. */
  function Initialize(t: Tlb): Tlb {
    Tlb(t.regs.(random := 31), EmptySlots(), map[], map[], t.disabled, t.duplicate)
  }

  /** Adding to a dictionary throws on a key that is present; the TLB only notes the fact. */
  function Index(t: Tlb, e: Entry): Tlb {
    if e.IsGlobal() then
      if e.vpn in t.global then t.(duplicate := true) else t.(global := t.global[e.vpn := e])
    else
      if e.vpn in t.local then t.(duplicate := true) else t.(local := t.local[e.vpn := e])
  }

  function Fill(t: Tlb, i: nat, e: Entry): Tlb
    requires i < SLOTS
  {
    Index(t.(slots := t.slots[i := Some(e)]), e)
  }

  function AddEntry(t: Tlb, i: int, e: Entry): Result {
    if 0 <= i < SLOTS then Result(UpdateRandom(Fill(t, i, e)), Done) else Result(t, IndexError)
  }

  /** The key always goes from the non-global dictionary; an empty slot has no key and throws. */
  function RemoveEntry(t: Tlb, i: int): Result {
    if !(0 <= i < SLOTS) then Result(t, IndexError)
    else if t.slots[i].None? then Result(t, NoMatchError)
    else Result(t.(slots := t.slots[i := None], local := t.local - {t.slots[i].value.vpn}), Done)
  }

  function Write(t: Tlb): Result {
    if t.disabled then Result(t, Done)
    else if CheckSafeEntry(t.regs.index, t.regs.wired) then Result(t, ModificationError)
    else
      var t1 := UpdateRandom(t);
      AddEntry(t1, ToInt32(t1.regs.index), CreateEntryFromRegs(t1.regs))
  }

  function WriteRandom(t: Tlb): Result {
    if t.disabled then Result(t, Done)
    else
      var t1 := UpdateRandom(t);
      AddEntry(t1, ToInt32(t1.regs.random), CreateEntryFromRegs(t1.regs))
  }

  function GetEntry(t: Tlb, i: int): Option<Entry> { if 0 <= i < SLOTS then t.slots[i] else None }

  function Read(t: Tlb): Tlb {
    if t.disabled then t
    else
      var t1 := UpdateRandom(t);
      match GetEntry(t1, ToInt32(t1.regs.index))
      case None => t1
      case Some(e) =>
        t1.(regs := t1.regs.(pageMask := MaskFromSize(e.size) % TWO64, entryHi := EncodeHi(e.vpn) % TWO64,
                             entryLo0 := EncodeLo(e.odd) % TWO64, entryLo1 := EncodeLo(e.even) % TWO64))
  }

  /** The first live slot from `i` on whose entry equals the page. */
  function FirstEqual(slots: Slots, v: Vpn2, i: nat): (k: nat)
    requires i <= SLOTS
    ensures i <= k <= SLOTS
    ensures k < SLOTS ==> slots[k].Some? && slots[k].value.EqualsPage(v)
    ensures forall j | i <= j < k :: slots[j].Some? ==> !slots[j].value.EqualsPage(v)
    decreases SLOTS - i
  {
    if i == SLOTS then SLOTS
    else if slots[i].Some? && slots[i].value.EqualsPage(v) then i else FirstEqual(slots, v, i + 1)
  }

  function Probe(t: Tlb): Result {
    if t.disabled then Result(t, Done)
    else
      var t1 := UpdateRandom(t);
      var v := DecodeHi(t1.regs.entryHi);
      if v in t1.local then
        var k := FirstEqual(t1.slots, v, 0);
        if k < SLOTS then Result(t1.(regs := t1.regs.(index := k)), Done) else Result(t1, NoMatchError)
      else Result(t1.(regs := t1.regs.(index := 0x8000_0000)), Done)
  }

  /** The dictionaries, globals first. */
  function Lookup(t: Tlb, v: Vpn2): Option<Entry> {
    if v in t.global then Some(t.global[v]) else if v in t.local then Some(t.local[v]) else None
  }

  datatype Translation = Translation(tlb: Tlb, status: Status, physical: int)

  /** The page size comes from the PageMask register, not from the entry. */
  function Translate(t: Tlb, virtualAddress: int): Translation {
    if t.duplicate then Translation(t.(disabled := true), ShutDown, -1)
    else
      match Lookup(t, DecodeHi(t.regs.entryHi))
      case None => Translation(t, RefillError, 0)
      case Some(e) => TranslateBy(t, e, SizeFromMask(t.regs.pageMask), virtualAddress)
  }

  /** Translating by an entry as one of pages of `size` bytes. */
  function TranslateBy(t: Tlb, e: Entry, size: int, virtualAddress: int): Translation {
    var frame := if And(virtualAddress, size) > 0 then e.even else e.odd;
    if frame.valid then Translation(t, Done, MapPhysical(frame, size, virtualAddress))
    else Translation(t, RefillError, 0)
  }

  /* -------- index agreement -------- */

  predicate Live(s: Slots, i: int) { 0 <= i < SLOTS && s[i].Some? }

  function Dictionary(t: Tlb, globals: bool): map<Vpn2, Entry> { if globals then t.global else t.local }

  /** Every live slot is found under its own page in the dictionary of its kind, and no two live slots
      of a kind share a page. */
  ghost predicate Agrees(t: Tlb) {
    && (forall i | Live(t.slots, i) :: Indexed(t, t.slots[i].value))
    && (forall i, j | Live(t.slots, i) && Live(t.slots, j) && i != j :: !SameKey(t.slots[i].value, t.slots[j].value))
  }

  predicate Indexed(t: Tlb, e: Entry) {
    e.vpn in Dictionary(t, e.IsGlobal()) && Dictionary(t, e.IsGlobal())[e.vpn] == e
  }

  predicate SameKey(a: Entry, b: Entry) { a.vpn == b.vpn && a.IsGlobal() == b.IsGlobal() }

  /** And no dictionary key is left over from a replaced entry. */
  ghost predicate NoStaleKeys(t: Tlb) {
    forall v, globals | v in Dictionary(t, globals) :: Held(t, v, globals)
  }

  ghost predicate Held(t: Tlb, v: Vpn2, globals: bool) { exists i :: Holder(t, i, v, globals) }

  predicate Holder(t: Tlb, i: int, v: Vpn2, globals: bool) {
    Live(t.slots, i) && t.slots[i].value.vpn == v && t.slots[i].value.IsGlobal() == globals
  }

  ghost predicate Inv(t: Tlb) { !t.duplicate ==> Agrees(t) }

  lemma InitializeAgrees(t: Tlb)
    ensures Agrees(Initialize(t)) && NoStaleKeys(Initialize(t))
  {}

  /** A fill that raises no duplicate extends the dictionary of the entry's kind by a new key. */
  lemma FillExtends(t: Tlb, i: nat, e: Entry)
    requires i < SLOTS && !Fill(t, i, e).duplicate
    ensures var u := Fill(t, i, e);
      && e.vpn !in Dictionary(t, e.IsGlobal()) && u.slots == t.slots[i := Some(e)]
      && Dictionary(u, e.IsGlobal()) == Dictionary(t, e.IsGlobal())[e.vpn := e]
      && Dictionary(u, !e.IsGlobal()) == Dictionary(t, !e.IsGlobal())
  {}

  /** On an exact index a fill raises the duplicate flag exactly when some slot already holds the page and
      kind, be it the very slot that is filled. */
  lemma FillDuplicatesIff(t: Tlb, i: nat, e: Entry)
    requires i < SLOTS && Agrees(t) && NoStaleKeys(t) && !t.duplicate
    ensures Fill(t, i, e).duplicate <==> Held(t, e.vpn, e.IsGlobal())
  {
    KeyIffHeld(t, e.vpn, e.IsGlobal());
  }

  /** On an exact index the keys are exactly the pages that slots hold. */
  lemma KeyIffHeld(t: Tlb, v: Vpn2, globals: bool)
    requires Agrees(t) && NoStaleKeys(t)
    ensures v in Dictionary(t, globals) <==> Held(t, v, globals)
  {
    if Held(t, v, globals) {
      var i :| Holder(t, i, v, globals);
      assert Live(t.slots, i) && Indexed(t, t.slots[i].value);
    }
  }

  /** So writing a slot again with its own page shuts the TLB down. */
  lemma RewritingASlotDuplicates(t: Tlb, i: nat, e: Entry)
    requires Agrees(t) && NoStaleKeys(t) && !t.duplicate && Live(t.slots, i) && SameKey(t.slots[i].value, e)
    ensures Fill(t, i, e).duplicate
  {
    assert Holder(t, i, e.vpn, e.IsGlobal());
    FillDuplicatesIff(t, i, e);
  }

  lemma FillKeepsAgreement(t: Tlb, i: nat, e: Entry)
    requires i < SLOTS && Agrees(t) && !Fill(t, i, e).duplicate
    ensures Agrees(Fill(t, i, e))
  {
    var u := Fill(t, i, e);
    FillExtends(t, i, e);
    forall j | Live(u.slots, j) ensures Indexed(u, u.slots[j].value) && (j != i ==> !SameKey(u.slots[j].value, e)) {
      if j != i {
        assert Live(t.slots, j) && Indexed(t, t.slots[j].value);
      }
    }
    forall j, k | Live(u.slots, j) && Live(u.slots, k) && j != k
      ensures !SameKey(u.slots[j].value, u.slots[k].value)
    {
      if j != i && k != i { assert Live(t.slots, j) && Live(t.slots, k); }
    }
  }

  lemma FillingAnEmptySlotStaysExact(t: Tlb, i: nat, e: Entry)
    requires i < SLOTS && NoStaleKeys(t) && !Fill(t, i, e).duplicate && t.slots[i].None?
    ensures NoStaleKeys(Fill(t, i, e))
  {
    var u := Fill(t, i, e);
    FillExtends(t, i, e);
    forall v, globals | v in Dictionary(u, globals) ensures Held(u, v, globals) {
      if v in Dictionary(t, globals) {
        assert Held(t, v, globals);
        var j :| Holder(t, j, v, globals);
        assert Holder(u, j, v, globals);
      } else {
        assert Holder(u, i, v, globals);
      }
    }
  }

  lemma ReplacingLeavesAStaleKey(t: Tlb, i: nat, e: Entry)
    requires i < SLOTS && Agrees(t) && !Fill(t, i, e).duplicate && t.slots[i].Some?
    ensures var was := t.slots[i].value; var u := Fill(t, i, e);
      was.vpn in Dictionary(u, was.IsGlobal()) && !Held(u, was.vpn, was.IsGlobal())
  {
    var u, was := Fill(t, i, e), t.slots[i].value;
    FillExtends(t, i, e);
    assert Live(t.slots, i) && Indexed(t, was);
    forall j ensures !Holder(u, j, was.vpn, was.IsGlobal()) {
      if Live(u.slots, j) && j != i { assert Live(t.slots, j) && !SameKey(was, t.slots[j].value); }
    }
  }

  /** From an exact index a write that raises no duplicate leaves an exact index if and only if the slot
      it filled was empty: replacing an entry leaves its key behind. */
  lemma FillStaysExactIff(t: Tlb, i: nat, e: Entry)
    requires i < SLOTS && Agrees(t) && NoStaleKeys(t) && !Fill(t, i, e).duplicate
    ensures NoStaleKeys(Fill(t, i, e)) <==> t.slots[i].None?
  {
    if t.slots[i].None? {
      FillingAnEmptySlotStaysExact(t, i, e);
    } else {
      ReplacingLeavesAStaleKey(t, i, e);
    }
  }

  /** From an exact index, removing an entry keeps the agreement unless it is global and its page is also
      held by a non-global slot, which is lost to the lookup. */
  lemma RemoveKeepsAgreementIff(t: Tlb, i: int)
    requires Agrees(t) && Live(t.slots, i)
    ensures var e := t.slots[i].value;
      Agrees(RemoveEntry(t, i).tlb) <==> !(e.IsGlobal() && Held(t, e.vpn, false))
  {
    var e, u := t.slots[i].value, RemoveEntry(t, i).tlb;
    if e.IsGlobal() && Held(t, e.vpn, false) {
      var j :| Holder(t, j, e.vpn, false);
      assert Live(u.slots, j) && !Indexed(u, u.slots[j].value);
    } else {
      forall j | Live(u.slots, j) ensures Indexed(u, u.slots[j].value) {
        assert Live(t.slots, j) && Indexed(t, t.slots[j].value) && !SameKey(t.slots[j].value, e);
        if e.IsGlobal() { assert !Holder(t, j, e.vpn, false); }
      }
      forall j, k | Live(u.slots, j) && Live(u.slots, k) && j != k
        ensures !SameKey(u.slots[j].value, u.slots[k].value)
      {
        assert Live(t.slots, j) && Live(t.slots, k);
      }
    }
  }

  /** And it leaves no key behind exactly when the entry was not global. */
  lemma RemoveLeavesNoStaleKeyIff(t: Tlb, i: int)
    requires Agrees(t) && NoStaleKeys(t) && Live(t.slots, i)
    ensures NoStaleKeys(RemoveEntry(t, i).tlb) <==> !t.slots[i].value.IsGlobal()
  {
    var e, u := t.slots[i].value, RemoveEntry(t, i).tlb;
    if e.IsGlobal() {
      assert Indexed(t, e);
      forall j ensures !Holder(u, j, e.vpn, true) {
        if Live(u.slots, j) { assert Live(t.slots, j) && !SameKey(t.slots[j].value, e); }
      }
      assert e.vpn in Dictionary(u, true) && !Held(u, e.vpn, true);
    } else {
      forall v, globals | v in Dictionary(u, globals) ensures Held(u, v, globals) {
        assert v in Dictionary(t, globals) && Held(t, v, globals);
        var j :| Holder(t, j, v, globals);
        assert Holder(u, j, v, globals);
      }
    }
  }

  /* -------- lookup against a linear scan -------- */

  function ScanKind(slots: Slots, v: Vpn2, globals: bool, i: nat): (r: Option<Entry>)
    requires i <= SLOTS
    decreases SLOTS - i
  {
    if i == SLOTS then None
    else if slots[i].Some? && slots[i].value.vpn == v && slots[i].value.IsGlobal() == globals then slots[i]
    else ScanKind(slots, v, globals, i + 1)
  }

  /** What a reader of the slots alone would answer: the globals first, then the others. */
  function Scan(t: Tlb, v: Vpn2): Option<Entry> {
    var g := ScanKind(t.slots, v, true, 0);
    if g.Some? then g else ScanKind(t.slots, v, false, 0)
  }

  lemma {:induction false} ScanKindIsHolder(t: Tlb, v: Vpn2, globals: bool, i: nat)
    requires i <= SLOTS
    ensures var r := ScanKind(t.slots, v, globals, i);
      if r.Some? then exists k :: i <= k && Holder(t, k, v, globals) && t.slots[k] == r
      else forall k | i <= k :: !Holder(t, k, v, globals)
    decreases SLOTS - i
  {
    if i < SLOTS {
      if Holder(t, i, v, globals) {
      } else {
        ScanKindIsHolder(t, v, globals, i + 1);
      }
    }
  }

  lemma DictionaryIsScan(t: Tlb, v: Vpn2, globals: bool)
    requires Agrees(t) && NoStaleKeys(t)
    ensures ScanKind(t.slots, v, globals, 0)
         == if v in Dictionary(t, globals) then Some(Dictionary(t, globals)[v]) else None
  {
    ScanKindIsHolder(t, v, globals, 0);
    if v in Dictionary(t, globals) {
      assert Held(t, v, globals);
      var j :| Holder(t, j, v, globals);
      var k :| Holder(t, k, v, globals) && t.slots[k] == ScanKind(t.slots, v, globals, 0);
      assert Indexed(t, t.slots[k].value);
    } else {
      forall k ensures !Holder(t, k, v, globals) {
        if Live(t.slots, k) { assert Indexed(t, t.slots[k].value); }
      }
    }
  }

  /** On an exact index the dictionaries answer as a linear scan of the slots does. */
  lemma LookupIsScan(t: Tlb, v: Vpn2)
    requires Agrees(t) && NoStaleKeys(t)
    ensures Lookup(t, v) == Scan(t, v)
  {
    DictionaryIsScan(t, v, true);
    DictionaryIsScan(t, v, false);
  }

  /** The frame of an entry for an address: the page-size bit chooses. */
  function ChosenFrame(e: Entry, size: int, virtualAddress: int): PageFrame {
    if And(virtualAddress, size) > 0 then e.even else e.odd
  }

  /** On an exact index a translation succeeds exactly when a linear scan of the slots, globals first, finds
      the page in EntryHi and the frame it chooses is valid; otherwise it refills. It changes nothing. */
  lemma TranslationIsScan(t: Tlb, virtualAddress: int)
    requires Agrees(t) && NoStaleKeys(t) && !t.duplicate
    ensures var found, size := Scan(t, DecodeHi(t.regs.entryHi)), SizeFromMask(t.regs.pageMask);
      var r := Translate(t, virtualAddress);
      && r.tlb == t
      && (r.status == Done <==> found.Some? && ChosenFrame(found.value, size, virtualAddress).valid)
      && (r.status == Done ==> r.physical == MapPhysical(ChosenFrame(found.value, size, virtualAddress), size, virtualAddress))
      && (r.status != Done ==> r.status == RefillError)
  {
    LookupIsScan(t, DecodeHi(t.regs.entryHi));
  }

  /** So a page that no slot holds refills at every address. */
  lemma UnheldPageRefills(t: Tlb, virtualAddress: int)
    requires Agrees(t) && NoStaleKeys(t) && !t.duplicate
    requires forall i | Live(t.slots, i) :: t.slots[i].value.vpn != DecodeHi(t.regs.entryHi)
    ensures Translate(t, virtualAddress).status == RefillError && Translate(t, virtualAddress).tlb == t
  {
    var v := DecodeHi(t.regs.entryHi);
    ScanKindIsHolder(t, v, true, 0);
    ScanKindIsHolder(t, v, false, 0);
    TranslationIsScan(t, virtualAddress);
  }

  /** An entry made from the registers is global exactly when bit 0 of both EntryLo registers is set. */
  lemma GlobalIff(r: Registers)
    ensures CreateEntryFromRegs(r).IsGlobal() <==> r.entryLo0 % 2 == 1 && r.entryLo1 % 2 == 1
  {}

  /* -------- TLBP -------- */

  /** The slot `k` is live and its entry is for page `v`, of either kind. */
  predicate HoldsPage(t: Tlb, k: int, v: Vpn2) { Live(t.slots, k) && t.slots[k].value.vpn == v }

  predicate IsGlobalSlot(t: Tlb, k: int) { Live(t.slots, k) && t.slots[k].value.IsGlobal() }

  predicate LowestGlobal(t: Tlb, k: int) { IsGlobalSlot(t, k) && forall j | 0 <= j < k :: !IsGlobalSlot(t, j) }

  ghost predicate ProbeReturns(t: Tlb, k: int) { Probe(t).status.Done? && Probe(t).tlb.regs.index == k }

  /** A page that no non-global slot holds, though a global one may, only gets the P bit set. */
  lemma GlobalPageIsNotFound(t: Tlb)
    requires Agrees(t) && NoStaleKeys(t) && !t.disabled && !Held(t, DecodeHi(t.regs.entryHi), false)
    ensures ProbeReturns(t, 0x8000_0000)
  {
    KeyIffHeld(t, DecodeHi(t.regs.entryHi), false);
  }

  /** A page held by the non-global slot `j` gets the lowest slot that is `j` or global below `j`. */
  lemma ProbeReturnsTheFirst(t: Tlb, j: int) returns (k: nat)
    requires Agrees(t) && !t.disabled && Holder(t, j, DecodeHi(t.regs.entryHi), false)
    ensures ProbeReturns(t, k) && k <= j && (k < j ==> LowestGlobal(t, k))
    ensures k == j ==> forall i | 0 <= i < j :: !IsGlobalSlot(t, i)
  {
    var v := DecodeHi(t.regs.entryHi);
    assert Live(t.slots, j) && Indexed(t, t.slots[j].value);
    k := FirstEqual(t.slots, v, 0);
    forall i | 0 <= i < j && Live(t.slots, i)
      ensures t.slots[i].value.EqualsPage(v) <==> IsGlobalSlot(t, i)
    {
      assert !SameKey(t.slots[i].value, t.slots[j].value);
    }
  }

  /** On an exact index TLBP returns a slot that holds the page in EntryHi exactly when a non-global slot
      holds it and the lowest global slot below that one, if there is any, holds it too. */
  lemma ProbeFindsThePageIff(t: Tlb)
    requires Agrees(t) && NoStaleKeys(t) && !t.disabled
    ensures var v := DecodeHi(t.regs.entryHi);
      (exists k :: HoldsPage(t, k, v) && ProbeReturns(t, k))
      <==> exists j :: Holder(t, j, v, false) && forall i | 0 <= i < j && LowestGlobal(t, i) :: HoldsPage(t, i, v)
  {
    var v := DecodeHi(t.regs.entryHi);
    if Held(t, v, false) {
      var j :| Holder(t, j, v, false);
      var k := ProbeReturnsTheFirst(t, j);
      forall j' | Holder(t, j', v, false) ensures j' == j {
        assert j' == j || !SameKey(t.slots[j].value, t.slots[j'].value);
      }
      if HoldsPage(t, k, v) {
        forall i | 0 <= i < j && LowestGlobal(t, i) ensures HoldsPage(t, i, v) { assert i == k; }
      }
    } else {
      GlobalPageIsNotFound(t);
    }
  }

  /** It returns the non-global slot itself exactly when no global slot lies below it. */
  lemma ProbeFindsTheSlotIff(t: Tlb, j: int)
    requires Agrees(t) && !t.disabled && Holder(t, j, DecodeHi(t.regs.entryHi), false)
    ensures ProbeReturns(t, j) <==> forall i | 0 <= i < j :: !IsGlobalSlot(t, i)
  {
    var k := ProbeReturnsTheFirst(t, j);
    if k < j { assert IsGlobalSlot(t, k); }
  }
}
