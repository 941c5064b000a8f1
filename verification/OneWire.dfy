/**
  The 1-Wire bus as the search procedure sees it, and the ROM search itself.

  A ROM code is its sequence of bits, bit 0 (the first one on the wire) first.
  Devices answer a read slot as a wired AND: the line is high only when every
  device still taking part leaves it high.
 */
module OneWireBus {

  type Code = seq<bool>

  /** What the next time slot on the bus means to a device taking part in a search. */
  datatype Slot = BitSlot | ComplementSlot | DirectionSlot

  ghost predicate AgreeBelow(a: Code, b: Code, n: nat)
  {
    n <= |a| && n <= |b| && forall j | 0 <= j < n :: a[j] == b[j]
  }

  /** The codes of `s` that agree with `c` on the first `n` bits. */
  ghost function Agreeing(s: set<Code>, c: Code, n: nat): set<Code>
  {
    set d | d in s && AgreeBelow(d, c, n)
  }

  class Bus {
    const width: nat
    const devices: set<Code>

    var active: set<Code>
    var position: nat
    var slot: Slot

    ghost predicate Valid()
      reads this
    {
      && (forall c | c in devices :: |c| == width)
      && active <= devices
    }

    constructor (width: nat, devices: set<Code>)
      requires forall c | c in devices :: |c| == width
      ensures Valid() && this.width == width && this.devices == devices
    {
      this.width := width;
      this.devices := devices;
      active, position, slot := {}, width, BitSlot;
    }

    /** A reset pulse; the answer is the presence pulse of any device. */
    method Reset() returns (present: bool)
      requires Valid()
      modifies this
      ensures Valid() && active == {}
      ensures present <==> devices != {}
    {
      active := {};
      present := devices != {};
    }

    /** The search command: every device takes part again, at its first bit. */
    method SendSearch()
      requires Valid()
      modifies this
      ensures Valid() && active == devices && position == 0 && slot == BitSlot
    {
      active, position, slot := devices, 0, BitSlot;
    }

    /** One read slot: first the wired AND of the bits, then that of their complements. */
    method ReadBit() returns (high: bool)
      requires Valid() && position < width && slot != DirectionSlot
      modifies this`slot
      ensures Valid()
      ensures old(slot) == BitSlot ==>
                slot == ComplementSlot && (high <==> forall c | c in active :: c[position])
      ensures old(slot) == ComplementSlot ==>
                slot == DirectionSlot && (high <==> forall c | c in active :: !c[position])
    {
      if slot == BitSlot {
        high := forall c | c in active :: c[position];
        slot := ComplementSlot;
      } else {
        high := forall c | c in active :: !c[position];
        slot := DirectionSlot;
      }
    }

    /** The direction the host takes: devices whose bit differs drop out. */
    method SendBit(b: bool)
      requires Valid() && position < width && slot == DirectionSlot
      modifies this
      ensures Valid() && slot == BitSlot && position == old(position) + 1
      ensures active == set c | c in old(active) && c[old(position)] == b
    {
      active := set c | c in active && c[position] == b;
      position, slot := position + 1, BitSlot;
    }
  }
}

/** The order in which the search meets the codes: lexicographic, bit 0 first. */
module CodeOrder {
  import opened OneWireBus

  /** `a` and `b` part at bit `k`, where `a` takes the 0. */
  ghost predicate BranchesBelow(a: Code, b: Code, k: nat)
  {
    k < |a| && k < |b| && AgreeBelow(a, b, k) && !a[k] && b[k]
  }

  ghost predicate Before(a: Code, b: Code)
  {
    exists k: nat :: BranchesBelow(a, b, k)
  }

  ghost predicate Increasing(codes: seq<Code>)
  {
    forall i, j | 0 <= i < j < |codes| :: Before(codes[i], codes[j])
  }

  /** `codes` starts the increasing listing of `s`: nothing of `s` was skipped. */
  ghost predicate StartsListing(codes: seq<Code>, s: set<Code>)
  {
    && Increasing(codes)
    && (forall c | c in codes :: c in s)
    && (forall c, d | c in codes && d in s && d !in codes :: Before(c, d))
  }

  lemma BeforeIsTotal(a: Code, b: Code)
    requires |a| == |b|
    ensures a == b || Before(a, b) || Before(b, a)
  {
    var k := 0;
    while k < |a| && a[k] == b[k]
      invariant 0 <= k <= |a| && AgreeBelow(a, b, k)
    {
      k := k + 1;
    }
    if k < |a| {
      assert BranchesBelow(a, b, k) || BranchesBelow(b, a, k);
    }
  }

  lemma BeforeIsTransitive(a: Code, b: Code, c: Code)
    requires Before(a, b) && Before(b, c)
    ensures Before(a, c)
  {
    var j: nat :| BranchesBelow(a, b, j);
    var k: nat :| BranchesBelow(b, c, k);
    assert BranchesBelow(a, c, if j < k then j else k);
  }

  lemma BeforeIsAsymmetric(a: Code, b: Code)
    requires Before(a, b)
    ensures !Before(b, a) && a != b
  {
    var j: nat :| BranchesBelow(a, b, j);
    if k: nat :| BranchesBelow(b, a, k) {
      assert false;
    }
  }
}

/** The ROM search: one pass per device, each pass the successor of the one before. */
module RomSearch {
  import opened Bits
  import opened OneWireBus
  import opened CodeOrder

  /** Some larger code of `s` leaves `c` at bit `k`: a conflict where `c` took the 0 branch. */
  ghost predicate OpenAt(s: set<Code>, c: Code, k: nat)
  {
    exists d :: d in s && BranchesBelow(c, d, k)
  }

  /** `k` is the deepest conflict where `c` took the 0 branch. */
  ghost predicate DeepestOpen(s: set<Code>, c: Code, k: int)
  {
    && 0 <= k < |c|
    && OpenAt(s, c, k)
    && (forall m: nat | k < m < |c| :: !OpenAt(s, c, m))
  }

  /** What one pass hands to the next: nothing yet, or the last code and its deepest open conflict. */
  ghost predicate Frontier(s: set<Code>, c: Code, branchPoint: int)
  {
    if branchPoint == -1 then forall k | 0 <= k < |c| :: !c[k]
    else c in s && DeepestOpen(s, c, branchPoint)
  }

  /** The codes a pass chooses from: all of them, or those after the last code. */
  ghost predicate Candidate(s: set<Code>, last: Code, branchPoint: int, d: Code)
  {
    d in s && (branchPoint == -1 || Before(last, d))
  }

  /** A code beyond `last` that shares all bits up to `last`'s deepest open conflict branches there. */
  lemma CandidateBranches(s: set<Code>, last: Code, bp: int, d: Code)
    requires DeepestOpen(s, last, bp) && d in s && Before(last, d)
    ensures exists k: nat :: k <= bp && BranchesBelow(last, d, k)
  {
    var k: nat :| BranchesBelow(last, d, k);
    assert OpenAt(s, last, k);
  }

  /** Taking the 1 branch at the deepest open conflict and then the least path gives the successor. */
  lemma LeastOnPathIsSuccessor(s: set<Code>, last: Code, bp: int, c: Code)
    requires forall d | d in s :: |d| == |last|
    requires c in s && Frontier(s, last, bp)
    requires bp != -1 ==> BranchesBelow(last, c, bp)
    requires forall k: nat, d | bp < k < |c| && d in s :: !BranchesBelow(d, c, k)
    ensures Candidate(s, last, bp, c)
    ensures forall d | Candidate(s, last, bp, d) && d != c :: Before(c, d)
  {
    forall d | Candidate(s, last, bp, d) && d != c
      ensures Before(c, d)
    {
      BeforeIsTotal(c, d);
      if Before(d, c) {
        var k: nat :| BranchesBelow(d, c, k);
        assert k <= bp;
        CandidateBranches(s, last, bp, d);
        assert false;  // below bp, c is last; d is 1 at j, where last is 0; so d is not below c
      }
    }
  }

  lemma NothingOpenIsGreatest(s: set<Code>, c: Code)
    requires forall d | d in s :: |d| == |c|
    ensures (forall k: nat | k < |c| :: !OpenAt(s, c, k)) <==> (forall d | d in s :: !Before(c, d))
  {
    if d :| d in s && Before(c, d) {
      var k: nat :| BranchesBelow(c, d, k);
      assert OpenAt(s, c, k);
    }
    if k: nat :| k < |c| && OpenAt(s, c, k) {
      var d :| d in s && BranchesBelow(c, d, k);
      assert Before(c, d);
    }
  }

  /** What a pass knows about conflicts above bit `index` depends only on the bits above it. */
  lemma ConflictsAbove(s: set<Code>, c: Code, c': Code, index: nat)
    requires |c| == |c'| && AgreeBelow(c, c', index)
    ensures forall k: nat | k < index :: OpenAt(s, c, k) == OpenAt(s, c', k)
    ensures forall d, k: nat | k < index :: BranchesBelow(d, c, k) == BranchesBelow(d, c', k)
  {
    forall k: nat | k < index
      ensures OpenAt(s, c, k) == OpenAt(s, c', k)
    {
      assert forall d :: BranchesBelow(c, d, k) == BranchesBelow(c', d, k);
    }
  }

  /** What a pass has established once it has fixed the bits below `index`. */
  ghost predicate PassInvariant(s: set<Code>, last: Code, branchPoint: int,
                                romcode: Code, nextBranchPoint: int, finished: bool, index: nat)
  {
    && index <= |romcode| == |last|
    && Agreeing(s, romcode, index) != {}
    && (index <= branchPoint ==> romcode == last)
    && (0 <= branchPoint < index ==> BranchesBelow(last, romcode, branchPoint))
    && (forall k: nat, d | branchPoint < k < index && d in s :: !BranchesBelow(d, romcode, k))
    && (if finished then forall k: nat | k < index :: !OpenAt(s, romcode, k)
        else 0 <= nextBranchPoint < index && OpenAt(s, romcode, nextBranchPoint) &&
             forall k: nat | nextBranchPoint < k < index :: !OpenAt(s, romcode, k))
    && (branchPoint == -1 ==> forall k | index <= k < |romcode| :: !romcode[k])
  }

  /** The direction a pass takes at a bit where the answering devices read `hasZero`, `hasOne`. */
  ghost predicate TakesOne(romcode: Code, branchPoint: int, index: nat, hasZero: bool, hasOne: bool)
    requires index < |romcode|
  {
    hasOne && (hasZero ==> index == branchPoint || (index < branchPoint && romcode[index]))
  }

  lemma PassStep(s: set<Code>, last: Code, branchPoint: int, romcode: Code, nextBranchPoint: int,
                 finished: bool, index: nat, hasZero: bool, hasOne: bool)
    requires forall d | d in s :: |d| == |last|
    requires PassInvariant(s, last, branchPoint, romcode, nextBranchPoint, finished, index)
    requires index < |last| && Frontier(s, last, branchPoint)
    requires hasZero <==> exists d :: d in Agreeing(s, romcode, index) && !d[index]
    requires hasOne <==> exists d :: d in Agreeing(s, romcode, index) && d[index]
    ensures hasZero || hasOne
    ensures
      var one := TakesOne(romcode, branchPoint, index, hasZero, hasOne);
      PassInvariant(s, last, branchPoint, romcode[index := one],
                    if hasOne && !one then index else nextBranchPoint,
                    finished && !(hasOne && !one), index + 1)
  {
    var someone :| someone in Agreeing(s, romcode, index);
    var one := TakesOne(romcode, branchPoint, index, hasZero, hasOne);
    var romcode' := romcode[index := one];
    ConflictsAbove(s, romcode, romcode', index);
    assert hasOne && !one <==> OpenAt(s, romcode', index) by {
      if hasOne && !one {
        var d :| d in Agreeing(s, romcode, index) && d[index];
        assert BranchesBelow(romcode', d, index);
      }
      if d :| d in s && BranchesBelow(romcode', d, index) {
        assert d in Agreeing(s, romcode, index);
      }
    }
    StillAnswering(s, last, branchPoint, romcode, index, hasZero, hasOne);
    forall d | d in s && branchPoint < index
      ensures !BranchesBelow(d, romcode', index)
    {
    }
  }

  lemma StillAnswering(s: set<Code>, last: Code, branchPoint: int, romcode: Code, index: nat,
                       hasZero: bool, hasOne: bool)
    requires forall d | d in s :: |d| == |last|
    requires index < |last| == |romcode| && Frontier(s, last, branchPoint)
    requires index <= branchPoint ==> romcode == last
    requires Agreeing(s, romcode, index) != {}
    requires hasZero <==> exists d :: d in Agreeing(s, romcode, index) && !d[index]
    requires hasOne <==> exists d :: d in Agreeing(s, romcode, index) && d[index]
    ensures Agreeing(s, romcode[index := TakesOne(romcode, branchPoint, index, hasZero, hasOne)], index + 1) != {}
    ensures index < branchPoint ==> TakesOne(romcode, branchPoint, index, hasZero, hasOne) == last[index]
    ensures index == branchPoint ==> TakesOne(romcode, branchPoint, index, hasZero, hasOne)
  {
    var one := TakesOne(romcode, branchPoint, index, hasZero, hasOne);
    if index <= branchPoint {
      var d :| d in s && BranchesBelow(last, d, branchPoint);
      assert d in Agreeing(s, romcode, index) && last in Agreeing(s, romcode, index);
      assert (if index == branchPoint then d else last) in Agreeing(s, romcode[index := one], index + 1);
    } else {
      var d :| d in Agreeing(s, romcode, index) && d[index] == one;
      assert d in Agreeing(s, romcode[index := one], index + 1);
    }
  }

  lemma AgreeingNarrows(s: set<Code>, c: Code, index: nat, b: bool)
    requires index < |c| && forall d | d in s :: |d| == |c|
    ensures (set d | d in Agreeing(s, c, index) && d[index] == b) == Agreeing(s, c[index := b], index + 1)
  {
  }

  lemma AgreeingInFull(s: set<Code>, c: Code)
    requires Agreeing(s, c, |c|) != {} && forall d | d in s :: |d| == |c|
    ensures c in s
  {
    var d :| d in Agreeing(s, c, |c|);
    assert d == c;
  }

  /** The bus waits for bit `index`, and those devices take part that agree with the code so far. */
  ghost predicate AtBit(bus: Bus, romcode: Code, index: nat)
    reads bus
  {
    bus.position == index && bus.slot == BitSlot && bus.active == Agreeing(bus.devices, romcode, index)
  }

  /** One bit of a pass: two reads, and the direction that the code takes. */
  method SearchBit(bus: Bus, ghost last: Code, branchPoint: int, romcode: Code, nextBranchPoint: int,
                   finished: bool, index: nat)
    returns (romcode': Code, nextBranchPoint': int, finished': bool)
    requires bus.Valid() && |last| == |romcode| == bus.width && Frontier(bus.devices, last, branchPoint)
    requires index < bus.width && AtBit(bus, romcode, index)
    requires PassInvariant(bus.devices, last, branchPoint, romcode, nextBranchPoint, finished, index)
    modifies bus
    ensures bus.Valid() && |romcode'| == bus.width && AtBit(bus, romcode', index + 1)
    ensures PassInvariant(bus.devices, last, branchPoint, romcode', nextBranchPoint', finished', index + 1)
  {
    ghost var s := bus.devices;
    var a := bus.ReadBit();
    var b := bus.ReadBit();
    PassStep(s, last, branchPoint, romcode, nextBranchPoint, finished, index, !a, !b);
    AgreeingNarrows(s, romcode, index, TakesOne(romcode, branchPoint, index, !a, !b));
    romcode', nextBranchPoint', finished' := romcode, nextBranchPoint, finished;
    if !a && !b {
      if index == branchPoint {
        bus.SendBit(true);
        romcode' := romcode[index := true];
      } else if branchPoint < index || !romcode[index] {
        bus.SendBit(false);
        finished' := false;
        romcode' := romcode[index := false];
        nextBranchPoint' := index;
      } else {
        bus.SendBit(true);
      }
    } else if a && b {
      assert false;  // a healthy bus always has an answering device, which pulls one of the reads low
    } else if !a {
      bus.SendBit(false);
      romcode' := romcode[index := false];
    } else {
      bus.SendBit(true);
      romcode' := romcode[index := true];
    }
    assert romcode' == romcode[index := TakesOne(romcode, branchPoint, index, !a, !b)];
  }

  /** One pass of the outer loop: reset, search command, one slot triple per bit. */
  method SearchPass(bus: Bus, last: Code, branchPoint: int)
    returns (romcode: Code, nextBranchPoint: int, finished: bool)
    requires bus.Valid() && bus.devices != {}
    requires |last| == bus.width
    requires Frontier(bus.devices, last, branchPoint)
    modifies bus
    ensures bus.Valid()
    ensures romcode in bus.devices && Candidate(bus.devices, last, branchPoint, romcode)
    ensures forall d | Candidate(bus.devices, last, branchPoint, d) && d != romcode :: Before(romcode, d)
    ensures finished <==> forall d | d in bus.devices :: !Before(romcode, d)
    ensures !finished ==> DeepestOpen(bus.devices, romcode, nextBranchPoint)
  {
    romcode, nextBranchPoint, finished := last, branchPoint, true;
    bus.SendSearch();
    ghost var s := bus.devices;
    ghost var someone :| someone in s;
    assert someone in Agreeing(s, romcode, 0);
    for index := 0 to bus.width
      invariant bus.Valid() && |romcode| == bus.width && AtBit(bus, romcode, index)
      invariant PassInvariant(s, last, branchPoint, romcode, nextBranchPoint, finished, index)
    {
      romcode, nextBranchPoint, finished :=
        SearchBit(bus, last, branchPoint, romcode, nextBranchPoint, finished, index);
    }
    PassIsDone(s, last, branchPoint, romcode, nextBranchPoint, finished);
  }

  /** With all its bits fixed the code is the next device. */
  lemma PassIsDone(s: set<Code>, last: Code, branchPoint: int, romcode: Code, nextBranchPoint: int, finished: bool)
    requires (forall d | d in s :: |d| == |last|) && Frontier(s, last, branchPoint)
    requires PassInvariant(s, last, branchPoint, romcode, nextBranchPoint, finished, |last|)
    ensures romcode in s && Candidate(s, last, branchPoint, romcode)
    ensures forall d | Candidate(s, last, branchPoint, d) && d != romcode :: Before(romcode, d)
    ensures finished <==> forall d | d in s :: !Before(romcode, d)
    ensures !finished ==> DeepestOpen(s, romcode, nextBranchPoint)
  {
    AgreeingInFull(s, romcode);
    LeastOnPathIsSuccessor(s, last, branchPoint, romcode);
    NothingOpenIsGreatest(s, romcode);
  }

  lemma ListingSize(codes: seq<Code>, s: set<Code>)
    requires StartsListing(codes, s)
    ensures |codes| <= |s|
    ensures |codes| == |s| <==> forall c | c in s :: c in codes
  {
    var listed := set c | c in codes;
    IncreasingHasNoRepeats(codes);
    assert listed <= s;
    SubsetSize(listed, s);
    if forall c | c in s :: c in codes {
      assert listed == s;
    }
  }

  lemma SubsetSize<T>(a: set<T>, b: set<T>)
    requires a <= b
    ensures |a| <= |b| && (|a| == |b| ==> a == b)
  {
    assert b == a + (b - a);
  }

  lemma {:induction false} IncreasingHasNoRepeats(codes: seq<Code>)
    requires Increasing(codes)
    ensures |set c | c in codes| == |codes|
  {
    if codes == [] {
      assert (set c | c in codes) == {};
    } else {
      var first := codes[..|codes| - 1];
      var last := codes[|codes| - 1];
      IncreasingHasNoRepeats(first);
      if last in first {
        BeforeIsAsymmetric(last, last);
      }
      assert (set c | c in codes) == (set c | c in first) + {last};
    }
  }

  lemma ListingGrows(codes: seq<Code>, s: set<Code>, next: Code)
    requires StartsListing(codes, s) && next in s
    requires codes != [] ==> Before(codes[|codes| - 1], next)
    requires forall d | d in s && d != next && (codes != [] ==> Before(codes[|codes| - 1], d)) :: Before(next, d)
    ensures StartsListing(codes + [next], s)
  {
    var codes' := codes + [next];
    forall i, j | 0 <= i < j < |codes'|
      ensures Before(codes'[i], codes'[j])
    {
      if j == |codes| && i < |codes| - 1 {
        BeforeIsTransitive(codes[i], codes[|codes| - 1], next);
      }
    }
    forall d | d in s && d !in codes'
      ensures Before(next, d)
    {
    }
  }

  lemma ListingIsDone(codes: seq<Code>, s: set<Code>)
    requires StartsListing(codes, s) && codes != []
    ensures (forall d | d in s :: d in codes) <==> (forall d | d in s :: !Before(codes[|codes| - 1], d))
  {
    var last := codes[|codes| - 1];
    forall d | d in codes
      ensures !Before(last, d)
    {
      var i :| 0 <= i < |codes| && codes[i] == d;
      if i < |codes| - 1 {
        BeforeIsAsymmetric(d, last);
      } else if Before(d, d) {
        BeforeIsAsymmetric(d, d);
      }
    }
  }

  /** Where the passes have come to: nothing yet, or the last code listed and what it left open. */
  ghost predicate Listed(s: set<Code>, listed: seq<Code>, romcode: Code, nextBranchPoint: int, finished: bool)
  {
    && StartsListing(listed, s) && |listed| <= |s|
    && (listed == [] ==> !finished && Frontier(s, romcode, nextBranchPoint) && nextBranchPoint == -1)
    && (listed != [] ==> romcode == listed[|listed| - 1] && (finished <==> |listed| == |s|))
    && (listed != [] && !finished ==> DeepestOpen(s, romcode, nextBranchPoint))
  }

  /** What a pass found is the next of the listing. */
  lemma ListedNext(s: set<Code>, listed: seq<Code>, last: Code, branchPoint: int, romcode: Code,
                   nextBranchPoint: int, finished: bool)
    requires Listed(s, listed, last, branchPoint, false)
    requires romcode in s && Candidate(s, last, branchPoint, romcode)
    requires forall d | Candidate(s, last, branchPoint, d) && d != romcode :: Before(romcode, d)
    requires finished <==> forall d | d in s :: !Before(romcode, d)
    requires !finished ==> DeepestOpen(s, romcode, nextBranchPoint)
    ensures Listed(s, listed + [romcode], romcode, nextBranchPoint, finished)
  {
    ListingGrows(listed, s, romcode);
    ListingSize(listed + [romcode], s);
    ListingIsDone(listed + [romcode], s);
  }

  /** A pass that goes on with the listing. */
  method ListNext(bus: Bus, ghost listed: seq<Code>, last: Code, branchPoint: int)
    returns (romcode: Code, nextBranchPoint: int, finished: bool)
    requires bus.Valid() && |last| == bus.width && |listed| < |bus.devices|
    requires Listed(bus.devices, listed, last, branchPoint, false)
    modifies bus
    ensures bus.Valid() && |romcode| == bus.width
    ensures Listed(bus.devices, listed + [romcode], romcode, nextBranchPoint, finished)
  {
    romcode, nextBranchPoint, finished := SearchPass(bus, last, branchPoint);
    ListedNext(bus.devices, listed, last, branchPoint, romcode, nextBranchPoint, finished);
  }

  /** Finds all devices, or the first `maxdevs` of them; 0 means no limit. */
  method OwRomsearch(bus: Bus, romcodes: array?<Code>, maxdevs: int) returns (numFound: int)
    requires bus.Valid()
    requires romcodes != null && maxdevs == 0 ==> |bus.devices| <= romcodes.Length
    requires romcodes != null && 0 < maxdevs ==> |bus.devices| <= romcodes.Length || maxdevs <= romcodes.Length
    modifies bus, if romcodes == null then {} else {romcodes}
    ensures maxdevs == 0 || |bus.devices| <= maxdevs ==> numFound == |bus.devices|
    ensures 0 < maxdevs < |bus.devices| ==> numFound == maxdevs
    ensures maxdevs < 0 ==> numFound == 0
    ensures romcodes != null ==>
              StartsListing(romcodes[..numFound], bus.devices) &&
              romcodes[numFound..] == old(romcodes[numFound..])
    ensures romcodes != null && numFound == |bus.devices| ==>
              forall d | d in bus.devices :: d in romcodes[..numFound]
  {
    ghost var s := bus.devices;
    ghost var listed: seq<Code> := [];
    var romcode := seq(bus.width, i => false);
    var nextBranchPoint := -1;
    numFound := 0;
    var finished := false;
    while !finished && (maxdevs == 0 || numFound < maxdevs)
      invariant bus.Valid() && |romcode| == bus.width
      invariant Listed(s, listed, romcode, nextBranchPoint, finished)
      invariant numFound == |listed| <= |s| && (maxdevs != 0 ==> numFound <= if maxdevs < 0 then 0 else maxdevs)
      invariant romcodes != null ==> forall k | 0 <= k < numFound :: romcodes[k] == listed[k]
      invariant romcodes != null ==> forall k | numFound <= k < romcodes.Length :: romcodes[k] == old(romcodes[k])
      decreases |s| - numFound, !finished
    {
      finished := true;
      var branchPoint := nextBranchPoint;
      var present := bus.Reset();
      if !present {
        numFound := 0;
        finished := true;
        break;
      }
      romcode, nextBranchPoint, finished := ListNext(bus, listed, romcode, branchPoint);
      if romcodes != null {
        romcodes[numFound] := romcode;
      }
      numFound := numFound + 1;
      listed := listed + [romcode];
    }
    assert romcodes != null ==> romcodes[..numFound] == listed;
    ListingSize(listed, s);
  }

  /** A listing is determined by its length: a limited search returns the first codes of the full one. */
  lemma LimitedSearchIsPrefix(full: seq<Code>, part: seq<Code>, s: set<Code>)
    requires StartsListing(full, s) && StartsListing(part, s) && |part| <= |full|
    ensures part == full[..|part|]
  {
    var i := 0;
    while i < |part|
      invariant 0 <= i <= |part| && part[..i] == full[..i]
    {
      if part[i] != full[i] {
        NextIsNotAfter(part, full, s, i);
        NextIsNotAfter(full, part, s, i);
        BeforeIsAsymmetric(part[i], full[i]);
        assert false;
      }
      i := i + 1;
    }
  }

  lemma NextIsNotAfter(a: seq<Code>, b: seq<Code>, s: set<Code>, i: nat)
    requires StartsListing(a, s) && StartsListing(b, s)
    requires i < |a| && i < |b| && a[..i] == b[..i] && a[i] != b[i]
    ensures Before(a[i], b[i])
  {
    if b[i] in a {
      var j :| 0 <= j < |a| && a[j] == b[i];
      if j < i {
        assert b[j] == b[..i][j] == a[..i][j];
        BeforeIsAsymmetric(b[j], b[i]);
      }
    }
  }

  /** Storing codes as integers of `width` bits, bit k of the code as bit k of the integer, loses nothing. */
  lemma CodesAreNumbers(a: Code, b: Code)
    requires |a| == |b|
    ensures Number(a) < Pow2(|a|)
    ensures Number(a) == Number(b) ==> a == b
  {
    NumberFits(a);
    LowOfNumber(a);
    LowOfNumber(b);
  }

  lemma SixtyFourBitsFit(c: Code)
    requires |c| == 64
    ensures Number(c) < 0x1_0000_0000_0000_0000
  {
    NumberFits(c);
    Pow2Sum(4, 4);
    Pow2Sum(8, 8);
    Pow2Sum(16, 16);
    Pow2Sum(32, 32);
  }
}
