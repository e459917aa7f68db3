/** The TLB over whole runs: its index, its wired entries, its random register, and what an entry
    written to it gives back. */
module TlbRuns {
  import opened Common
  import opened Bits
  import opened TlbEncoding
  import opened TlbModel

  datatype Request =
    | WriteIndexed
    | WriteAtRandom
    | AddDirectly(index: int32, entry: Entry)
    | RemoveDirectly(at: int32)
    | ReadIndexed
    | ProbePage
    | TranslateAddress(address: int)
    | Reinitialize
    | SetWired(wired: u64)
    | SetRegisters(indexRegister: u64, entryHi: u64, entryLo0: u64, entryLo1: u64, pageMask: u64)

  function Step(t: Tlb, r: Request): Tlb {
    match r
    case WriteIndexed => Write(t).tlb
    case WriteAtRandom => WriteRandom(t).tlb
    case AddDirectly(index, entry) => AddEntry(t, index, entry).tlb
    case RemoveDirectly(at) => RemoveEntry(t, at).tlb
    case ReadIndexed => Read(t)
    case ProbePage => Probe(t).tlb
    case TranslateAddress(address) => Translate(t, address).tlb
    case Reinitialize => Initialize(t)
    case SetWired(wired) =>
      if t.disabled then t else t.(regs := t.regs.(wired := wired % 0x1_0000_0000, random := 46))
    case SetRegisters(index, hi, lo0, lo1, mask) =>
      t.(regs := t.regs.(index := index, entryHi := hi, entryLo0 := lo0, entryLo1 := lo1, pageMask := mask))
  }

  function Run(t: Tlb, rs: seq<Request>): Tlb
    decreases |rs|
  {
    if rs == [] then t else Run(Step(t, rs[0]), rs[1..])
  }

  /* -------- the index over runs -------- */

  /** The slot that a request fills, if it fills one. */
  function Target(t: Tlb, r: Request): (i: Option<nat>)
    ensures i.Some? ==> i.value < SLOTS
  {
    var i := match r
      case WriteIndexed => if t.disabled || CheckSafeEntry(t.regs.index, t.regs.wired) then -1 else ToInt32(t.regs.index)
      case WriteAtRandom => if t.disabled then -1 else ToInt32(NextRandom(t.regs.random, t.regs.wired))
      case AddDirectly(index, _) => index
      case _ => -1;
    if 0 <= i < SLOTS then Some(i) else None
  }

  /** The entry that it fills in: given directly, or made from the registers. */
  function Filling(t: Tlb, r: Request): Entry { if r.AddDirectly? then r.entry else CreateEntryFromRegs(t.regs) }

  predicate SameIndex(t: Tlb, u: Tlb) {
    t.slots == u.slots && t.local == u.local && t.global == u.global && t.duplicate == u.duplicate
  }

  lemma AddAfterUpdate(t: Tlb, i: int, e: Entry)
    ensures SameIndex(AddEntry(UpdateRandom(t), i, e).tlb, if 0 <= i < SLOTS then Fill(t, i, e) else t)
    ensures AddEntry(UpdateRandom(t), i, e).status.Done? <==> 0 <= i < SLOTS
  {}

  lemma WriteFillsItsTarget(t: Tlb)
    ensures match Target(t, WriteIndexed)
      case None => SameIndex(Write(t).tlb, t)
      case Some(i) => SameIndex(Write(t).tlb, Fill(t, i, CreateEntryFromRegs(t.regs)))
  {
    AddAfterUpdate(t, ToInt32(t.regs.index), CreateEntryFromRegs(t.regs));
  }

  lemma WriteRandomFillsItsTarget(t: Tlb)
    ensures match Target(t, WriteAtRandom)
      case None => SameIndex(WriteRandom(t).tlb, t)
      case Some(i) => SameIndex(WriteRandom(t).tlb, Fill(t, i, CreateEntryFromRegs(t.regs)))
  {
    var next := NextRandom(t.regs.random, t.regs.wired);
    AddAfterUpdate(t, ToInt32(next), CreateEntryFromRegs(t.regs));
  }

  /** Apart from initializing and removing, a step changes the slots and dictionaries only by filling its
      target. */
  lemma StepFillsItsTarget(t: Tlb, r: Request)
    requires !r.Reinitialize? && !r.RemoveDirectly?
    ensures match Target(t, r)
      case None => SameIndex(Step(t, r), t)
      case Some(i) => SameIndex(Step(t, r), Fill(t, i, Filling(t, r)))
  {
    match r
    case WriteIndexed => WriteFillsItsTarget(t);
    case WriteAtRandom => WriteRandomFillsItsTarget(t);
    case _ =>
  }

  lemma SameIndexAgrees(t: Tlb, u: Tlb)
    requires SameIndex(t, u)
    ensures Agrees(t) ==> Agrees(u)
    ensures NoStaleKeys(t) ==> NoStaleKeys(u)
  {
    assert forall e :: Indexed(t, e) == Indexed(u, e);
    if NoStaleKeys(t) {
      forall v, globals | v in Dictionary(u, globals) ensures Held(u, v, globals) {
        assert v in Dictionary(t, globals) && Held(t, v, globals);
        var i :| Holder(t, i, v, globals);
        assert Holder(u, i, v, globals);
      }
    }
  }

  lemma DuplicateStays(t: Tlb, r: Request)
    ensures t.duplicate ==> Step(t, r).duplicate
  {}

  /** The request does not remove a global entry whose page a non-global slot holds too. */
  ghost predicate RemovesSafely(t: Tlb, r: Request) {
    r.RemoveDirectly? && Live(t.slots, r.at) ==>
      var e := t.slots[r.at].value; !(e.IsGlobal() && Held(t, e.vpn, false))
  }

  lemma StepKeepsInv(t: Tlb, r: Request)
    requires Inv(t) && RemovesSafely(t, r)
    ensures Inv(Step(t, r))
  {
    var u := Step(t, r);
    DuplicateStays(t, r);
    if !u.duplicate {
      if r.Reinitialize? {
        InitializeAgrees(t);
      } else if r.RemoveDirectly? {
        if Live(t.slots, r.at) { RemoveKeepsAgreementIff(t, r.at); }
      } else {
        StepFillsItsTarget(t, r);
        match Target(t, r)
        case None => SameIndexAgrees(t, u);
        case Some(i) =>
          var e := Filling(t, r);
          FillKeepsAgreement(t, i, e);
          SameIndexAgrees(Fill(t, i, e), u);
      }
    }
  }

  ghost predicate RemovesSafelyThroughout(t: Tlb, rs: seq<Request>)
    decreases |rs|
  {
    rs == [] || (RemovesSafely(t, rs[0]) && RemovesSafelyThroughout(Step(t, rs[0]), rs[1..]))
  }

  /** Index agreement: in every state reached from an initialized TLB, while no duplicate is flagged,
      every live slot is found in the dictionary of its kind under its own page, and no two live slots
      of the same kind share a page. */
  lemma {:induction false} RunKeepsInv(t: Tlb, rs: seq<Request>)
    requires Inv(t) && RemovesSafelyThroughout(t, rs)
    ensures Inv(Run(t, rs))
    decreases |rs|
  {
    if rs != [] {
      StepKeepsInv(t, rs[0]);
      RunKeepsInv(Step(t, rs[0]), rs[1..]);
    }
  }

  predicate RemovesLocal(t: Tlb, r: Request) {
    r.RemoveDirectly? && Live(t.slots, r.at) ==> !t.slots[r.at].value.IsGlobal()
  }

  /** Only empty slots are filled, and no global entry is removed. */
  predicate FillsOnce(t: Tlb, rs: seq<Request>)
    decreases |rs|
  {
    rs == [] ||
    (&& (Target(t, rs[0]).Some? ==> t.slots[Target(t, rs[0]).value].None?)
     && RemovesLocal(t, rs[0])
     && FillsOnce(Step(t, rs[0]), rs[1..]))
  }

  lemma StepStaysExact(t: Tlb, r: Request)
    requires Agrees(t) && NoStaleKeys(t) && !Step(t, r).duplicate
    requires (Target(t, r).Some? ==> t.slots[Target(t, r).value].None?) && RemovesLocal(t, r)
    ensures NoStaleKeys(Step(t, r))
  {
    DuplicateStays(t, r);
    if r.Reinitialize? {
      InitializeAgrees(t);
    } else if r.RemoveDirectly? {
      if Live(t.slots, r.at) { RemoveLeavesNoStaleKeyIff(t, r.at); }
    } else {
      StepFillsItsTarget(t, r);
      match Target(t, r)
      case None => SameIndexAgrees(t, Step(t, r));
      case Some(i) =>
        var e := Filling(t, r);
        FillingAnEmptySlotStaysExact(t, i, e);
        SameIndexAgrees(Fill(t, i, e), Step(t, r));
    }
  }

  /** No duplicate, every live slot found under its page, and no key left over. */
  ghost predicate Exact(t: Tlb) { !t.duplicate && Agrees(t) && NoStaleKeys(t) }

  /** The request fills no slot, or an empty one with a page that no slot of its kind holds; and it removes
      no global entry. */
  ghost predicate FillsFresh(t: Tlb, r: Request) {
    match Target(t, r)
    case None => RemovesLocal(t, r)
    case Some(i) => t.slots[i].None? && !Held(t, Filling(t, r).vpn, Filling(t, r).IsGlobal())
  }

  /** An exact index stays exact over a request exactly when the request fills afresh. */
  lemma StepStaysExactIff(t: Tlb, r: Request)
    requires Exact(t)
    ensures Exact(Step(t, r)) <==> FillsFresh(t, r)
  {
    if r.Reinitialize? {
      InitializeAgrees(t);
    } else if r.RemoveDirectly? {
      if Live(t.slots, r.at) { RemovalStaysExactIff(t, r.at); }
    } else {
      StepFillsItsTarget(t, r);
      match Target(t, r)
      case None => SameIndexAgrees(t, Step(t, r));
      case Some(i) =>
        var e := Filling(t, r);
        FillDuplicatesIff(t, i, e);
        if !Fill(t, i, e).duplicate {
          FillKeepsAgreement(t, i, e);
          FillStaysExactIff(t, i, e);
          SameIndexAgrees(Fill(t, i, e), Step(t, r));
          SameIndexAgrees(Step(t, r), Fill(t, i, e));
        }
    }
  }

  /** Removing an entry keeps the index exact exactly when the entry is not global. */
  lemma RemovalStaysExactIff(t: Tlb, i: int)
    requires Exact(t) && Live(t.slots, i)
    ensures Exact(RemoveEntry(t, i).tlb) <==> !t.slots[i].value.IsGlobal()
  {
    RemoveKeepsAgreementIff(t, i);
    RemoveLeavesNoStaleKeyIff(t, i);
  }

  ghost predicate ExactThroughout(t: Tlb, rs: seq<Request>)
    decreases |rs|
  {
    Exact(t) && (rs == [] || ExactThroughout(Step(t, rs[0]), rs[1..]))
  }

  ghost predicate FillsFreshThroughout(t: Tlb, rs: seq<Request>)
    decreases |rs|
  {
    rs == [] || (FillsFresh(t, rs[0]) && FillsFreshThroughout(Step(t, rs[0]), rs[1..]))
  }

  /** Along a run the index stays exact, and so the lookup a scan, exactly when every fill is fresh and
      no removed entry is global. */
  lemma {:induction false} RunStaysExactIff(t: Tlb, rs: seq<Request>)
    requires Exact(t)
    ensures ExactThroughout(t, rs) <==> FillsFreshThroughout(t, rs)
    decreases |rs|
  {
    if rs != [] {
      StepStaysExactIff(t, rs[0]);
      if Exact(Step(t, rs[0])) { RunStaysExactIff(Step(t, rs[0]), rs[1..]); }
    }
  }

  lemma {:induction false} DuplicateStaysOverRuns(t: Tlb, rs: seq<Request>)
    ensures t.duplicate ==> Run(t, rs).duplicate
    decreases |rs|
  {
    if rs != [] {
      DuplicateStays(t, rs[0]);
      DuplicateStaysOverRuns(Step(t, rs[0]), rs[1..]);
    }
  }

  lemma RemovesLocalIsSafe(t: Tlb, r: Request)
    ensures RemovesLocal(t, r) ==> RemovesSafely(t, r)
  {}

  /** If moreover only empty slots are filled and no global entry is removed, the lookup is a linear scan of the slots. */
  lemma {:induction false} LookupIsScanOverRuns(t: Tlb, rs: seq<Request>, v: Vpn2)
    requires Agrees(t) && NoStaleKeys(t) && FillsOnce(t, rs) && !Run(t, rs).duplicate
    ensures Lookup(Run(t, rs), v) == Scan(Run(t, rs), v)
    decreases |rs|
  {
    if rs == [] {
      LookupIsScan(t, v);
    } else {
      DuplicateStaysOverRuns(Step(t, rs[0]), rs[1..]);
      DuplicateStays(t, rs[0]);
      RemovesLocalIsSafe(t, rs[0]);
      StepKeepsInv(t, rs[0]);
      StepStaysExact(t, rs[0]);
      LookupIsScanOverRuns(Step(t, rs[0]), rs[1..], v);
    }
  }

  /* -------- the random register and wired entries -------- */

  /** Short of its largest value, which no request gives it, the random register ends an update above
      Wired and at most 46 exactly when Wired <= 45. */
  lemma UpdateEndsInRangeIff(random: u64, wired: u64)
    requires random < TWO64 - 1
    ensures wired < NextRandom(random, wired) <= 46 <==> wired <= 45
  {}

  function Updates(random: u64, wired: u64, k: nat): u64
    decreases k
  {
    if k == 0 then random else Updates(NextRandom(random, wired), wired, k - 1)
  }

  lemma Rotate(x: nat, n: nat, k: nat)
    requires x < n && k > 0
    ensures ((if x + 1 == n then 0 else x + 1) + (k - 1)) % n == (x + k) % n
  {
    if x + 1 == n {
      var q, r := (k - 1) / n, (k - 1) % n;
      assert k - 1 == n * q + r;
      assert n * (q + 1) == n * q + n;
      ModUnique(x + k, n, q + 1, r);
    }
  }

  lemma NextRotates(random: u64, wired: u64)
    requires wired < random <= 46
    ensures NextRandom(random, wired) == if random == 46 then wired + 1 else random + 1
  {}

  /** `k` updates rotate the register through the slots above Wired. */
  lemma {:induction false} UpdatesRotate(random: u64, wired: u64, k: nat)
    requires wired < random <= 46
    ensures Updates(random, wired, k) == wired + 1 + (random - wired - 1 + k) % (46 - wired)
    decreases k
  {
    var n, x := 46 - wired, random - wired - 1;
    if k == 0 {
      SmallRemainder(x, n);
    } else {
      NextRotates(random, wired);
      var x' := if x + 1 == n then 0 else x + 1;
      calc {
        Updates(random, wired, k);
        Updates(wired + 1 + x', wired, k - 1);
        { UpdatesRotate(wired + 1 + x', wired, k - 1); }
        wired + 1 + (x' + (k - 1)) % n;
        { Rotate(x, n, k); }
        wired + 1 + (x + k) % n;
      }
    }
  }

  /** So every unwired slot up to 46 is reached. */
  lemma EveryUnwiredSlotIsReached(random: u64, wired: u64, slot: nat) returns (k: nat)
    requires wired < random <= 46 && wired < slot <= 46
    ensures k < 46 - wired && Updates(random, wired, k) == slot
  {
    var n, x, y := 46 - wired, random - wired - 1, slot - wired - 1;
    k := if x <= y then y - x else y - x + n;
    assert (x + k) % n == y by {
      SmallRemainder(y, n);
      TurnOn(y, n);
    }
    UpdatesRotate(random, wired, k);
  }

  /* -------- which slots a run of TLBWR fills -------- */

  /** A run of nothing but TLBWR. */
  function RandomWrites(n: nat): (rs: seq<Request>)
    ensures |rs| == n
    decreases n
  {
    if n == 0 then [] else [WriteAtRandom] + RandomWrites(n - 1)
  }

  /** An enabled TLB whose random register is in its range. */
  predicate Rotates(t: Tlb) { !t.disabled && t.regs.wired < t.regs.random <= 46 }

  /** One TLBWR fills the slot of the next value of the register and moves the register on twice. */
  lemma RandomWriteStep(t: Tlb)
    requires Rotates(t)
    ensures var u, next := Step(t, WriteAtRandom), NextRandom(t.regs.random, t.regs.wired);
      && Target(t, WriteAtRandom) == Some(next)
      && u.regs.random == NextRandom(next, t.regs.wired) && u.regs.wired == t.regs.wired && Rotates(u)
  {
    NextRotates(t.regs.random, t.regs.wired);
    NextRotates(NextRandom(t.regs.random, t.regs.wired), t.regs.wired);
  }

  /** The slot that write number `w`, counted from 0, of a run of TLBWR fills. */
  function SlotOfWrite(t: Tlb, w: nat): Option<nat> { Target(Run(t, RandomWrites(w)), WriteAtRandom) }

  ghost predicate GetsFilled(t: Tlb, slot: nat) { exists w: nat :: SlotOfWrite(t, w) == Some(slot) }

  /** Each write before it has moved the register on twice. */
  lemma {:induction false} SlotOfWriteIs(t: Tlb, w: nat)
    requires Rotates(t)
    ensures SlotOfWrite(t, w) == Some(Updates(t.regs.random, t.regs.wired, 2 * w + 1))
    decreases w
  {
    RandomWriteStep(t);
    var random, wired := t.regs.random, t.regs.wired;
    if w == 0 {
      assert Updates(random, wired, 1) == Updates(NextRandom(random, wired), wired, 0);
    } else {
      var u := Step(t, WriteAtRandom);
      SlotOfWriteIs(u, w - 1);
      LaterWrites(t, w);
      TwoUpdates(random, wired, 2 * w - 1);
    }
  }

  lemma LaterWrites(t: Tlb, w: nat)
    requires w > 0
    ensures SlotOfWrite(t, w) == SlotOfWrite(Step(t, WriteAtRandom), w - 1)
  {
    assert RandomWrites(w)[0] == WriteAtRandom && RandomWrites(w)[1..] == RandomWrites(w - 1);
  }

  lemma TwoUpdates(random: u64, wired: u64, k: nat)
    ensures Updates(random, wired, k + 2) == Updates(NextRandom(NextRandom(random, wired), wired), wired, k)
  {
    assert Updates(random, wired, k + 2) == Updates(NextRandom(random, wired), wired, k + 1);
  }

  /** Every unwired slot up to 46 is filled by some write of a run of TLBWR exactly when their number is
      odd; when it is even the run only ever fills every other slot. */
  lemma RandomWritesReachEverySlotIff(t: Tlb)
    requires Rotates(t)
    ensures (forall slot: nat | t.regs.wired < slot <= 46 :: GetsFilled(t, slot))
       <==> (46 - t.regs.wired) % 2 == 1
  {
    var random, wired := t.regs.random, t.regs.wired;
    if (46 - wired) % 2 == 1 {
      forall slot: nat | wired < slot <= 46 ensures GetsFilled(t, slot) {
        var w := OddUpdateReaching(random, wired, slot);
        SlotOfWriteIs(t, w);
      }
    } else {
      var missed: nat := random;
      forall w: nat ensures SlotOfWrite(t, w) != Some(missed) {
        SlotOfWriteIs(t, w);
        RandomWritesSkipEveryOtherSlot(random, wired, w);
      }
      assert !GetsFilled(t, missed);
    }
  }

  /** With an odd number of unwired slots an odd number of updates reaches each of them. */
  lemma OddUpdateReaching(random: u64, wired: u64, slot: nat) returns (w: nat)
    requires wired < random <= 46 && wired < slot <= 46 && (46 - wired) % 2 == 1
    ensures Updates(random, wired, 2 * w + 1) == slot
  {
    var k := EveryUnwiredSlotIsReached(random, wired, slot);
    if k % 2 == 1 {
      w := k / 2;
    } else {
      w := (k + (46 - wired)) / 2;
      assert 2 * w + 1 == k + (46 - wired);
      UpdatesTurn(random, wired, k);
    }
  }

  /** A whole turn through the unwired slots changes nothing. */
  lemma UpdatesTurn(random: u64, wired: u64, k: nat)
    requires wired < random <= 46
    ensures Updates(random, wired, k + (46 - wired)) == Updates(random, wired, k)
  {
    UpdatesRotate(random, wired, k);
    UpdatesRotate(random, wired, k + (46 - wired));
    TurnOn(random - wired - 1 + k, 46 - wired);
  }

  lemma TurnOn(x: nat, n: nat)
    requires n > 0
    ensures (x + n) % n == x % n
  {
    ModUnique(x + n, n, x / n + 1, x % n);
  }

  /** With an even number, an odd number of updates ends on a slot of the other parity. */
  lemma RandomWritesSkipEveryOtherSlot(random: u64, wired: u64, writes: nat)
    requires wired < random <= 46 && (46 - wired) % 2 == 0
    ensures (Updates(random, wired, 2 * writes + 1) - random) % 2 == 1
  {
    var n, x := 46 - wired, random - wired - 1;
    var a := x + 2 * writes + 1;
    assert Updates(random, wired, 2 * writes + 1) == wired + 1 + a % n by { UpdatesRotate(random, wired, 2 * writes + 1); }
    assert a % n % 2 == a % 2 by { SameParity(a, n / 2); }
    OddApart(a % n, x, writes);
  }

  lemma OddApart(m: nat, x: nat, writes: nat)
    requires m % 2 == (x + 2 * writes + 1) % 2
    ensures (m - x) % 2 == 1
  {}

  lemma SameParity(a: nat, h: nat)
    requires h > 0
    ensures a % (2 * h) % 2 == a % 2
  {
    ModHalves(a, h);
  }

  /** The register is only ever set to 31, 46 or by an update, so it never comes near wrapping. */
  predicate RandomSane(t: Tlb) { t.regs.wired < 0x1_0000_0000 && t.regs.random <= 0x1_0000_0000 }

  lemma UpdateKeepsRandomSane(t: Tlb)
    requires RandomSane(t)
    ensures RandomSane(UpdateRandom(t))
  {}

  lemma AddKeepsRandomSane(t: Tlb, i: int, e: Entry)
    requires RandomSane(t)
    ensures RandomSane(AddEntry(t, i, e).tlb)
  {
    if 0 <= i < SLOTS {
      assert Fill(t, i, e).regs == t.regs;
      UpdateKeepsRandomSane(Fill(t, i, e));
    }
  }

  lemma StepKeepsRandomSane(t: Tlb, r: Request)
    requires RandomSane(t)
    ensures RandomSane(Step(t, r))
  {
    UpdateKeepsRandomSane(t);
    var t1, e := UpdateRandom(t), CreateEntryFromRegs(t.regs);
    match r
    case WriteIndexed => AddKeepsRandomSane(t1, ToInt32(t1.regs.index), e);
    case WriteAtRandom => AddKeepsRandomSane(t1, ToInt32(t1.regs.random), e);
    case AddDirectly(index, entry) => AddKeepsRandomSane(t, index, entry);
    case _ =>
  }

  /** A direct write or removal, which is not checked against Wired, leaves the slots up to `wired` alone. */
  predicate StaysAbove(r: Request, wired: u64) {
    (r.AddDirectly? ==> r.index > wired) && (r.RemoveDirectly? ==> r.at > wired)
  }

  /** The next value of Random is above Wired. */
  lemma NextExceedsWired(random: u64, wired: u64)
    requires random <= TWO32 && wired < TWO32
    ensures wired < NextRandom(random, wired) <= TWO32
  {}

  /** A TLBWR fills a wired slot exactly when Wired is the last 32-bit value, and then slot 0. */
  lemma RandomWriteFillsWiredIff(t: Tlb)
    requires RandomSane(t) && !t.disabled
    ensures var i := Target(t, WriteAtRandom);
      i.Some? && i.value <= t.regs.wired <==> t.regs.wired == TWO32 - 1
  {
    NextExceedsWired(t.regs.random, t.regs.wired);
  }

  /** No request but initializing and a direct write or removal changes a slot up to Wired. */
  lemma StepKeepsWiredSlots(t: Tlb, r: Request, slot: nat)
    requires t.regs.wired < TWO32 - 1 && slot <= t.regs.wired && slot < SLOTS && !r.Reinitialize? && RandomSane(t)
    requires StaysAbove(r, t.regs.wired)
    ensures Step(t, r).slots[slot] == t.slots[slot]
  {
    if !r.RemoveDirectly? {
      StepFillsItsTarget(t, r);
      if Target(t, r) == Some(slot) {
        NextExceedsWired(t.regs.random, t.regs.wired);
        if r.WriteIndexed? { LowByteOfIndex(t.regs.index, slot); }
      }
    }
  }

  lemma LowByteOfIndex(index: u64, slot: nat)
    requires ToInt32(index) == slot < SLOTS
    ensures index % 0x100 == slot
  {
    var q := CastShifts(index);
    ModUnique(index, 0x100, -(0x100_0000 * q), slot);
  }

  predicate KeepsWired(rs: seq<Request>, wired: u64) {
    forall i | 0 <= i < |rs| :: !rs[i].Reinitialize? && !rs[i].SetWired? && StaysAbove(rs[i], wired)
  }

  lemma StepKeepsWired(t: Tlb, r: Request)
    requires !r.Reinitialize? && !r.SetWired?
    ensures Step(t, r).regs.wired == t.regs.wired
  {}

  /** Wired entries are never replaced, whatever writes, reads, probes and translations happen, and
      direct writes and removals above Wired. */
  lemma {:induction false} WiredEntriesAreNeverReplaced(t: Tlb, rs: seq<Request>, slot: nat)
    requires t.regs.wired < TWO32 - 1 && slot <= t.regs.wired && slot < SLOTS && KeepsWired(rs, t.regs.wired) && RandomSane(t)
    ensures Run(t, rs).slots[slot] == t.slots[slot]
    decreases |rs|
  {
    if rs != [] {
      assert !rs[0].Reinitialize? && !rs[0].SetWired? && StaysAbove(rs[0], t.regs.wired);
      StepKeepsWiredSlots(t, rs[0], slot);
      StepKeepsWired(t, rs[0]);
      StepKeepsRandomSane(t, rs[0]);
      assert forall i | 0 <= i < |rs| - 1 :: rs[1..][i] == rs[i + 1];
      WiredEntriesAreNeverReplaced(Step(t, rs[0]), rs[1..], slot);
    }
  }

  /* -------- an entry written and used -------- */

  lemma WriteFills(t: Tlb)
    requires !t.disabled && t.regs.wired < t.regs.index < SLOTS
    ensures var e := CreateEntryFromRegs(t.regs); var u := Write(t).tlb;
      && Write(t).status.Done? && SameIndex(u, Fill(t, t.regs.index, e)) && u.slots[t.regs.index] == Some(e)
      && u.regs == t.regs.(random := u.regs.random) && !u.disabled
  {
    SmallIndex(t.regs.index);
  }

  lemma SmallIndex(index: u64)
    requires index < SLOTS
    ensures index % 0x100 == index && ToInt32(index) == index
  {}

  /** TLBWI then TLBR at an unwired index gives back EntryHi without bits 8 to 11, 31 bits of each
      EntryLo and bits 14 to 25 of PageMask. */
  lemma WriteThenRead(t: Tlb)
    requires !t.disabled && t.regs.wired < t.regs.index < SLOTS
    ensures var r := Read(Write(t).tlb).regs;
      && r.entryHi == t.regs.entryHi / 0x1000 * 0x1000 + t.regs.entryHi % 0x100
      && r.entryLo0 == t.regs.entryLo0 % 0x8000_0000
      && r.entryLo1 == t.regs.entryLo1 % 0x8000_0000
      && r.pageMask == t.regs.pageMask / 0x4000 % 0x1000 * 0x4000
      && r.index == t.regs.index
  {
    var g := t.regs;
    var e := CreateEntryFromRegs(g);
    WriteFills(t);
    SmallIndex(g.index);
    ReadReturns(Write(t).tlb, g.index, e);
    EncodedRegisters(g);
  }

  lemma EncodedRegisters(g: Registers)
    ensures var e := CreateEntryFromRegs(g);
      && EncodeHi(e.vpn) % TWO64 == g.entryHi / 0x1000 * 0x1000 + g.entryHi % 0x100
      && EncodeLo(e.odd) % TWO64 == g.entryLo0 % 0x8000_0000
      && EncodeLo(e.even) % TWO64 == g.entryLo1 % 0x8000_0000
      && MaskFromSize(e.size) % TWO64 == g.pageMask / 0x4000 % 0x1000 * 0x4000
  {
    HiRegister(g.entryHi);
    LoRegister(g.entryLo0);
    LoRegister(g.entryLo1);
    MaskRegister(g.pageMask);
  }

  lemma ReadReturns(u: Tlb, i: nat, e: Entry)
    requires !u.disabled && u.regs.index == i < SLOTS && ToInt32(i) == i && u.slots[i] == Some(e)
    ensures var r := Read(u).regs;
      && r.pageMask == MaskFromSize(e.size) % TWO64 && r.entryHi == EncodeHi(e.vpn) % TWO64
      && r.entryLo0 == EncodeLo(e.odd) % TWO64 && r.entryLo1 == EncodeLo(e.even) % TWO64 && r.index == i
  {}

  /** A translation by an entry uses EntryLo0 when the page-size bit of the address is clear and EntryLo1
      otherwise, and adds the page offset to the frame address; an invalid frame refills. */
  lemma EntryPicksTheFrame(t: Tlb, e: Entry, k: nat, virtualAddress: int)
    requires k <= 30 && e.odd.pfn < 0x200_0000 && e.even.pfn < 0x200_0000
    ensures var frame := if virtualAddress / Pow2(k) % 2 == 0 then e.odd else e.even;
      var r := TranslateBy(t, e, Pow2(k), virtualAddress);
      && r.tlb == t
      && if frame.valid then r.status.Done? && r.physical == frame.pfn * Pow2(k) + virtualAddress % Pow2(k)
         else r.status.RefillError?
  {
    AndOneBit(virtualAddress, k);
    MapPhysicalAddsTheOffset(e.odd, k, virtualAddress);
    MapPhysicalAddsTheOffset(e.even, k, virtualAddress);
  }

  /** So does a translation that hits, with the page size of the PageMask register. */
  lemma TranslationPicksTheFrame(t: Tlb, k: nat, virtualAddress: int, e: Entry)
    requires !t.duplicate && Lookup(t, DecodeHi(t.regs.entryHi)) == Some(e)
    requires k <= 30 && SizeFromMask(t.regs.pageMask) == Pow2(k)
    requires e.odd.pfn < 0x200_0000 && e.even.pfn < 0x200_0000
    ensures var frame := if virtualAddress / Pow2(k) % 2 == 0 then e.odd else e.even;
      var r := Translate(t, virtualAddress);
      && r.tlb == t
      && if frame.valid then r.status.Done? && r.physical == frame.pfn * Pow2(k) + virtualAddress % Pow2(k)
         else r.status.RefillError?
  {
    EntryPicksTheFrame(t, e, k, virtualAddress);
  }

  /** Two page sizes translate all addresses alike by one entry. */
  ghost predicate SizesAgree(t: Tlb, e: Entry, k: nat, j: nat) {
    forall va :: TranslateBy(t, e, Pow2(k), va) == TranslateBy(t, e, Pow2(j), va)
  }

  /** A translation that hits, by the register's page size, treats all addresses as the entry's own page
      size would exactly when the two sizes are equal, or the entry has no valid frame. */
  lemma TranslationUsesTheEntrysSizeIff(t: Tlb, e: Entry, k: nat, j: nat)
    requires !t.duplicate && Lookup(t, DecodeHi(t.regs.entryHi)) == Some(e)
    requires k <= 30 && SizeFromMask(t.regs.pageMask) == Pow2(k) && j <= 30 && e.size == Pow2(j)
    requires e.odd.pfn < 0x200_0000 && e.even.pfn < 0x200_0000
    ensures (forall va :: Translate(t, va) == TranslateBy(t, e, e.size, va))
       <==> k == j || !(e.odd.valid || e.even.valid)
  {
    SizesAgreeIff(t, e, k, j);
    if SizesAgree(t, e, k, j) {
      forall va ensures Translate(t, va) == TranslateBy(t, e, e.size, va) {
        assert TranslateBy(t, e, Pow2(k), va) == TranslateBy(t, e, Pow2(j), va);
      }
    } else {
      var va :| TranslateBy(t, e, Pow2(k), va) != TranslateBy(t, e, Pow2(j), va);
      assert Translate(t, va) != TranslateBy(t, e, e.size, va);
    }
  }

  lemma SizesAgreeIff(t: Tlb, e: Entry, k: nat, j: nat)
    requires k <= 30 && j <= 30 && e.odd.pfn < 0x200_0000 && e.even.pfn < 0x200_0000
    ensures SizesAgree(t, e, k, j) <==> k == j || !(e.odd.valid || e.even.valid)
  {
    if e.odd.valid || e.even.valid {
      if k < j {
        var va := SizesDiffer(t, e, k, j);
      } else if j < k {
        var va := SizesDiffer(t, e, j, k);
      }
    }
  }

  /** An address that two different page sizes translate differently: 0, or the size of either. */
  lemma SizesDiffer(t: Tlb, e: Entry, k: nat, j: nat) returns (va: int)
    requires k < j <= 30 && e.odd.pfn < 0x200_0000 && e.even.pfn < 0x200_0000 && (e.odd.valid || e.even.valid)
    ensures TranslateBy(t, e, Pow2(k), va) != TranslateBy(t, e, Pow2(j), va)
  {
    var p, q := Pow2(k), Pow2(j);
    var h := LargerSize(k, j);
    if e.odd.valid && e.even.valid && e.odd.pfn != 0 {
      va := 0;
      NoBits(p);
      NoBits(q);
      ProductsDiffer(e.odd.pfn, p, q);
    } else if e.odd.valid && e.even.valid && e.even.pfn != 0 {
      va := q;
      EvenMultiple(p, h, q);
      OneBit(q);
      ProductsDiffer(e.even.pfn, 0, q);
    } else {
      va := p;
      OneBit(p);
      BelowBit(p, q);
    }
    EntryPicksTheFrame(t, e, k, va);
    EntryPicksTheFrame(t, e, j, va);
  }

  lemma LargerSize(k: nat, j: nat) returns (h: nat)
    requires k < j
    ensures Pow2(j) == 2 * h * Pow2(k) && h >= 1 && Pow2(k) < Pow2(j)
  {
    h := Pow2(j - k - 1);
    assert Pow2(j - k) == 2 * h;
    Pow2Adds(j - k, k);
    SmallerProduct(Pow2(k), h, Pow2(j));
  }

  lemma NoBits(p: nat)
    requires p >= 1
    ensures 0 / p % 2 == 0 && 0 % p == 0
  {
    ModUnique(0, p, 0, 0);
  }

  lemma OneBit(p: nat)
    requires p >= 1
    ensures p / p % 2 == 1 && p % p == 0
  {
    ModUnique(p, p, 1, 0);
  }

  lemma BelowBit(p: nat, q: nat)
    requires p < q
    ensures p / q % 2 == 0 && p % q == p
  {
    ModUnique(p, q, 0, p);
  }

  lemma EvenMultiple(p: nat, h: nat, q: nat)
    requires p >= 1 && q == 2 * h * p
    ensures q / p % 2 == 0 && q % p == 0
  {
    ModUnique(q, p, 2 * h, 0);
  }

  lemma SmallerProduct(p: nat, h: nat, q: nat)
    requires p >= 1 && h >= 1 && q == 2 * h * p
    ensures p < q
  {}

  lemma ProductsDiffer(a: nat, p: nat, q: nat)
    requires a > 0 && p < q
    ensures a * p < a * q
  {}

  lemma AndOneBit(a: int, k: nat)
    ensures And(a, Pow2(k)) > 0 <==> a / Pow2(k) % 2 == 1
  {
    var p := Pow2(k);
    var q, r := a / p, a % p;
    assert a == q * p + r;
    assert And(a, p) == And(q, 1) * p by { AndHigh(q, 1, k, r); assert 1 * p == p; }
    assert And(q, 1) == q % 2 by { AndLowMask(q, 1); assert Pow2(1) == 2; }
  }

  /** With 4 KB pages, a page just written to an index without duplicates is translated by the written
      registers: EntryLo0 when bit 12 of the address is clear, EntryLo1 otherwise. */
  lemma WriteThenTranslate(t: Tlb, virtualAddress: int)
    requires !t.disabled && t.regs.wired < t.regs.index < SLOTS && t.regs.pageMask == 0
    requires !Write(t).tlb.duplicate
    requires DecodeHi(t.regs.entryHi) !in t.global
    ensures var lo := if virtualAddress / 0x1000 % 2 == 0 then t.regs.entryLo0 else t.regs.entryLo1;
      var r := Translate(Write(t).tlb, virtualAddress);
      if lo / 2 % 2 == 1 then
        r.status.Done? && r.physical == lo / 64 % 0x200_0000 * 0x1000 + virtualAddress % 0x1000
      else r.status.RefillError?
  {
    var u, e := Write(t).tlb, CreateEntryFromRegs(t.regs);
    WriteFills(t);
    FillExtends(t, t.regs.index, e);
    assert Lookup(u, DecodeHi(u.regs.entryHi)) == Some(e);
    SmallPowers();
    assert SizeFromMask(0) == 0x1000 by { OrLowOnes(0); }
    TranslationPicksTheFrame(u, 12, virtualAddress, e);
  }

  /** The duplicate flag shuts the TLB down at the next translation, and initializing does not undo it. */
  lemma DuplicateShutsDownForGood(t: Tlb, address: int, rs: seq<Request>)
    requires t.duplicate
    ensures Translate(t, address).physical == -1
    ensures var u := Run(Step(t, TranslateAddress(address)), rs); u.disabled && u.duplicate
  {
    DisabledStays(Step(t, TranslateAddress(address)), rs);
    DuplicateStaysOverRuns(Step(t, TranslateAddress(address)), rs);
  }

  lemma {:induction false} DisabledStays(t: Tlb, rs: seq<Request>)
    requires t.disabled
    ensures Run(t, rs).disabled
    decreases |rs|
  {
    if rs != [] { DisabledStays(Step(t, rs[0]), rs[1..]); }
  }
}
