/** Runs of edges and looks, with edges that come during a look: every gap that is read is a move of its own. */
module IrReaderRuns {
  import opened Bits
  import opened IrReader

  /** Where the task is with a look: not at one, before gap `i`, or through with the gaps. */
  datatype Phase = Idle | Reading(i: nat, data: nat, bits: nat) | Checking(data: nat, bits: nat)

  datatype Reader = Reader(state: State, phase: Phase)

  datatype Move = Stamp(now: int) | TakeFlag | ReadGap | Check

  function Next(r: Reader, m: Move): (Reader, seq<Report>)
  {
    match m
    case Stamp(now) => (r.(state := Push(r.state, now)), [])
    case TakeFlag =>
      if r.phase == Idle && r.state.flagged then (Reader(r.state.(flagged := false), Reading(0, 0, 0)), [])
      else (r, [])
    case ReadGap =>
      if !r.phase.Reading? then (r, [])
      else if r.phase.i + 1 < |r.state.stamps| then
        var (data, bits) := AddGap(r.state.stamps, r.phase.i, r.phase.data, r.phase.bits);
        (r.(phase := Reading(r.phase.i + 1, data, bits)), [])
      else (r.(phase := Checking(r.phase.data, r.phase.bits)), [])
    case Check =>
      if !r.phase.Checking? then (r, [])
      else (r.(phase := Idle), Checked(|r.state.stamps|, r.phase.data, r.phase.bits))
  }

  function Run(r: Reader, moves: seq<Move>): (Reader, seq<Report>)
  {
    if moves == [] then (r, [])
    else
      var (was, reports) := Run(r, moves[..|moves| - 1]);
      var (now, more) := Next(was, moves[|moves| - 1]);
      (now, reports + more)
  }

  /** The first `k` edges of a command are in, and a look under way has read some of them. */
  ghost predicate Among(r: Reader, stamps: seq<int>, k: nat)
  {
    && 0 < k <= |stamps| && r.state.stamps == stamps[..k]
    && match r.phase {
         case Idle => true
         case Reading(i, data, bits) => bits == i < k && data == Ones(stamps, i)
         case Checking(data, bits) => bits < k && data == Ones(stamps, bits)
       }
  }

  /** The reports still to come of these edges: one for the flag, one for a look that will have read them all. */
  function Pending(r: Reader, k: nat): nat
  {
    (if r.state.flagged then 1 else 0) +
    match r.phase {
      case Idle => 0
      case Reading(_, _, _) => 1
      case Checking(_, bits) => if bits + 1 == k then 1 else 0
    }
  }

  function Copies(report: seq<Report>, n: nat): seq<Report>
  {
    if n == 0 then [] else Copies(report, n - 1) + report
  }

  lemma PrefixReads(stamps: seq<int>, k: nat, i: nat)
    requires i < k <= |stamps|
    ensures Ones(stamps[..k], i) == Ones(stamps, i)
    ensures i + 1 < k ==> Gap(stamps[..k], i) == Gap(stamps, i)
  {
    if i > 0 {
      PrefixReads(stamps, k, i - 1);
    }
  }

  lemma AllRead(stamps: seq<int>, v: nat, n: nat, k: nat)
    requires Carries(stamps, v, n) && 0 < k <= n + 1
    ensures Read(stamps[..k], k - 1) == k - 1
  {
    forall i: nat | i < k - 1 ensures IsOne(Gap(stamps[..k], i)) || IsZero(Gap(stamps[..k], i)) {
      assert InWindow(T.Message(v, n)[i], Gap(stamps, i));
    }
    AllAreRead(stamps[..k], k - 1);
  }

  /** Between two edges every move keeps count: what it reports was pending, and is what the edges decode to. */
  lemma MoveBetweenEdges(r: Reader, m: Move, stamps: seq<int>, v: nat, n: nat, k: nat)
    requires Carries(stamps, v, n) && Among(r, stamps, k) && !m.Stamp?
    ensures
      var (q, reports) := Next(r, m);
      && Among(q, stamps, k) && Pending(q, k) <= Pending(r, k)
      && reports == Copies(Decode(stamps[..k]), Pending(r, k) - Pending(q, k))
  {
    match m
    case TakeFlag =>
    case ReadGap =>
      if r.phase.Reading? && r.phase.i + 1 < k {
        var i := r.phase.i;
        assert InWindow(T.Message(v, n)[i], Gap(stamps, i));
        assert Gap(stamps[..k], i) == Gap(stamps, i);
      }
    case Check =>
      if r.phase.Checking? {
        CheckAmong(r, stamps, v, n, k);
      }
  }

  lemma CheckAmong(r: Reader, stamps: seq<int>, v: nat, n: nat, k: nat)
    requires Carries(stamps, v, n) && Among(r, stamps, k) && r.phase.Checking?
    ensures Checked(k, r.phase.data, r.phase.bits) == if r.phase.bits + 1 == k then Decode(stamps[..k]) else []
    ensures forall report: seq<Report> :: Copies(report, 1) == report
  {
    AllRead(stamps, v, n, k);
    PrefixReads(stamps, k, k - 1);
    forall report: seq<Report> ensures Copies(report, 1) == report {
      assert Copies(report, 0) == [];
    }
  }

  lemma {:induction false} CopiesInTurn(report: seq<Report>, a: nat, b: nat)
    ensures Copies(report, a) + Copies(report, b) == Copies(report, a + b)
  {
    if b > 0 {
      CopiesInTurn(report, a, b - 1);
      assert Copies(report, a) + (Copies(report, b - 1) + report)
          == (Copies(report, a) + Copies(report, b - 1)) + report;
    }
  }

  ghost predicate NoStamps(moves: seq<Move>)
  {
    forall i | 0 <= i < |moves| :: !moves[i].Stamp?
  }

  /** While no edge comes, the reports are as many as were pending and no longer are, each what the edges decode to. */
  lemma {:induction false} BetweenEdges(r: Reader, moves: seq<Move>, stamps: seq<int>, v: nat, n: nat, k: nat)
    requires Carries(stamps, v, n) && Among(r, stamps, k) && NoStamps(moves)
    ensures
      var (q, reports) := Run(r, moves);
      && Among(q, stamps, k) && Pending(q, k) <= Pending(r, k)
      && reports == Copies(Decode(stamps[..k]), Pending(r, k) - Pending(q, k))
  {
    if moves != [] {
      var first, m := moves[..|moves| - 1], moves[|moves| - 1];
      BetweenEdges(r, first, stamps, v, n, k);
      var p := Run(r, first).0;
      MoveBetweenEdges(p, m, stamps, v, n, k);
      var q := Next(p, m).0;
      CopiesInTurn(Decode(stamps[..k]), Pending(r, k) - Pending(p, k), Pending(p, k) - Pending(q, k));
    }
  }

  /** The next edge of a command; from the 15th on it raises the flag, and a look that is reading will read it. */
  lemma NextEdge(r: Reader, stamps: seq<int>, v: nat, n: nat, k: nat)
    requires Carries(stamps, v, n) && Among(r, stamps, k) && k <= n
    ensures
      var q := Next(r, Stamp(stamps[k])).0;
      && Among(q, stamps, k + 1) && q.phase == r.phase
      && (14 <= k ==> Pending(q, k + 1) == 1 + if r.phase.Reading? then 1 else 0)
  {
    GapIsShort(stamps, v, n, k - 1);
    assert stamps[..k + 1] == stamps[..k] + [stamps[k]];
  }

  /** The first edge after a silence, with the task not at a look. */
  lemma EdgeAfterSilence(r: Reader, stamps: seq<int>)
    requires stamps != [] && r.phase == Idle && (r.state.stamps == [] || IsLate(r.state.stamps, stamps[0]))
    ensures Among(Next(r, Stamp(stamps[0])).0, stamps, 1)
  {
  }

  /** After a silence, and with the task not at a look. */
  ghost predicate Begins(r: Reader, stamps: seq<int>)
  {
    stamps != [] && r.phase == Idle && (r.state.stamps == [] || IsLate(r.state.stamps, stamps[0]))
  }

  // ----- a whole command

  /** The reader and its reports after `k` edges of a command, each with the moves that follow it before the next. */
  function After(r: Reader, stamps: seq<int>, between: seq<seq<Move>>, k: nat): (Reader, seq<Report>)
    requires k <= |between| <= |stamps|
  {
    if k == 0 then (r, [])
    else
      var (p, reports) := After(r, stamps, between, k - 1);
      var (q, more) := Run(Next(p, Stamp(stamps[k - 1])).0, between[k - 1]);
      (q, reports + more)
  }

  /** A look was still reading when edge `k` came. */
  predicate ReadingAt(r: Reader, stamps: seq<int>, between: seq<seq<Move>>, k: nat)
    requires 0 < k <= |between| <= |stamps|
  {
    After(r, stamps, between, k - 1).0.phase.Reading?
  }

  /**
    How often the first `k` edges are reported before the next one: once for the flag, once more if the last of them
    came while a look was still reading, less what was still pending then.
   */
  function Times(r: Reader, stamps: seq<int>, between: seq<seq<Move>>, k: nat): int
    requires 0 < k <= |between| <= |stamps|
  {
    (if ReadingAt(r, stamps, between, k) then 2 else 1) - Pending(After(r, stamps, between, k).0, k)
  }

  /** The report of a command's first 14 bits. */
  function Short(v: nat, n: nat): seq<Report>
    requires T.ATTACK_LENGTH_BITS <= n
  {
    [Report(Shift(v, n - T.ATTACK_LENGTH_BITS), T.ATTACK_LENGTH_BITS)]
  }

  /** One edge more, the first one or another. */
  lemma EdgeJoins(p: Reader, stamps: seq<int>, v: nat, n: nat, m: nat)
    requires Carries(stamps, v, n) && 0 < m <= n + 1
    requires if m == 1 then Begins(p, stamps) else Among(p, stamps, m - 1)
    ensures
      var e := Next(p, Stamp(stamps[m - 1])).0;
      Among(e, stamps, m) && (14 < m ==> Pending(e, m) == if p.phase.Reading? then 2 else 1)
  {
    if m == 1 {
      EdgeAfterSilence(p, stamps);
    } else {
      NextEdge(p, stamps, v, n, m - 1);
    }
  }

  /** And the moves after it. */
  lemma EdgeMore(r: Reader, stamps: seq<int>, between: seq<seq<Move>>, v: nat, n: nat, m: nat) returns (c: nat)
    requires Carries(stamps, v, n) && 0 < m <= |between| <= n + 1 && NoStamps(between[m - 1])
    requires var p := After(r, stamps, between, m - 1).0;
             if m == 1 then Begins(p, stamps) else Among(p, stamps, m - 1)
    ensures Among(After(r, stamps, between, m).0, stamps, m)
    ensures 14 < m ==> c == Times(r, stamps, between, m)
    ensures After(r, stamps, between, m).1
         == After(r, stamps, between, m - 1).1 + Copies(Decode(stamps[..m]), c)
  {
    var p := After(r, stamps, between, m - 1).0;
    var e := Next(p, Stamp(stamps[m - 1])).0;
    EdgeJoins(p, stamps, v, n, m);
    BetweenEdges(e, between[m - 1], stamps, v, n, m);
    c := Pending(e, m) - Pending(Run(e, between[m - 1]).0, m);
  }

  lemma {:induction false} CopiesOfNothing(n: nat)
    ensures Copies([], n) == []
  {
    if n > 0 {
      CopiesOfNothing(n - 1);
    }
  }

  /** Before its 15th edge nothing of a command is reported. */
  lemma {:induction false} FirstEdges(r: Reader, stamps: seq<int>, between: seq<seq<Move>>, v: nat, n: nat, m: nat)
    requires n == T.GLOBAL_LENGTH_BITS || n == T.ATTACK_LENGTH_BITS
    requires v < Pow2(n) && Carries(stamps, v, n) && Begins(r, stamps)
    requires m <= |between| <= n + 1 && m <= 14 && forall k | 0 <= k < |between| :: NoStamps(between[k])
    ensures m == 0 || Among(After(r, stamps, between, m).0, stamps, m)
    ensures After(r, stamps, between, m).1 == []
  {
    if m > 0 {
      FirstEdges(r, stamps, between, v, n, m - 1);
      var c := EdgeMore(r, stamps, between, v, n, m);
      assert Decode(stamps[..m]) == [] by {
        PartIsDecoded(stamps, v, n, m);
      }
      CopiesOfNothing(c);
    }
  }

  /** From its 15th edge on and before its last, a 24 bit command is reported as an attack made of its first 14 bits. */
  lemma {:induction false} MiddleEdges(r: Reader, stamps: seq<int>, between: seq<seq<Move>>, v: nat, n: nat, m: nat)
    requires n == T.GLOBAL_LENGTH_BITS && v < Pow2(n) && Carries(stamps, v, n) && Begins(r, stamps)
    requires 15 <= m <= |between| <= n + 1 && m <= n && forall k | 0 <= k < |between| :: NoStamps(between[k])
    ensures Among(After(r, stamps, between, m).0, stamps, m)
    ensures 0 <= Times(r, stamps, between, 15)
    ensures After(r, stamps, between, m).1 == Copies(Short(v, n), Times(r, stamps, between, 15))
  {
    if m == 15 {
      FirstEdges(r, stamps, between, v, n, 14);
    } else {
      MiddleEdges(r, stamps, between, v, n, m - 1);
    }
    var c := EdgeMore(r, stamps, between, v, n, m);
    PartIsDecoded(stamps, v, n, m);
    if m > 15 {
      CopiesOfNothing(c);
    }
  }

  /**
    Whenever edges and looks come between each other, a command after a silence is reported once for its flag, and once
    more exactly if a look was still reading as its last edge came, as soon as the task is through with its looks. A
    24 bit command is reported before that as an attack made of its first 14 bits, as often as a look that has read
    all of its first 15 edges checks them before the next. Nothing else is reported.
   */
  lemma CommandIsReported(r: Reader, stamps: seq<int>, between: seq<seq<Move>>, v: nat, n: nat)
    requires n == T.GLOBAL_LENGTH_BITS || n == T.ATTACK_LENGTH_BITS
    requires v < Pow2(n) && Carries(stamps, v, n) && Begins(r, stamps)
    requires |between| == n + 1 && forall k | 0 <= k < |between| :: NoStamps(between[k])
    ensures 0 <= Times(r, stamps, between, n + 1) <= 2 && 0 <= Times(r, stamps, between, 15) <= 2
    ensures
      var (q, reports) := After(r, stamps, between, n + 1);
      && reports ==
         (if n == T.ATTACK_LENGTH_BITS then [] else Copies(Short(v, n), Times(r, stamps, between, 15)))
         + Copies([Report(v, n)], Times(r, stamps, between, n + 1))
      && (q.phase == Idle && !q.state.flagged ==>
            Times(r, stamps, between, n + 1) == if ReadingAt(r, stamps, between, n + 1) then 2 else 1)
  {
    if n == T.ATTACK_LENGTH_BITS {
      FirstEdges(r, stamps, between, v, n, n);
    } else {
      MiddleEdges(r, stamps, between, v, n, n);
    }
    var c := EdgeMore(r, stamps, between, v, n, n + 1);
    PartIsDecoded(stamps, v, n, n + 1);
    assert stamps[..n + 1] == stamps;
  }

  // ----- runs with no doubt, and runs with a false or a second report

  ghost predicate NoLooks(moves: seq<Move>)
  {
    forall i | 0 <= i < |moves| :: !moves[i].TakeFlag?
  }

  /** With the flag down, or with no look begun, nothing happens between edges. */
  lemma {:induction false} NothingBetween(r: Reader, moves: seq<Move>)
    requires r.phase == Idle && NoStamps(moves) && (!r.state.flagged || NoLooks(moves))
    ensures Run(r, moves).0 == r && Run(r, moves).1 == []
  {
    if moves != [] {
      var m := moves[|moves| - 1];
      NothingBetween(r, moves[..|moves| - 1]);
      assert !m.Stamp? && (r.state.flagged ==> !m.TakeFlag?) && Next(r, m) == (r, []);
    }
  }

  /** No look begins before edge `k + 1`, as the flag is down or the task waits. */
  ghost predicate NoLookBefore(r: Reader, between: seq<seq<Move>>, k: nat)
    requires k <= |between|
  {
    (k <= 14 && !r.state.flagged) || forall i | 0 <= i < k :: NoLooks(between[i])
  }

  lemma {:induction false} NoLookYet(r: Reader, stamps: seq<int>, between: seq<seq<Move>>, v: nat, n: nat, k: nat)
    requires Carries(stamps, v, n) && Begins(r, stamps)
    requires k <= |between| <= n + 1 && NoLookBefore(r, between, k) && forall i | 0 <= i < k :: NoStamps(between[i])
    ensures After(r, stamps, between, k).0.phase == Idle && After(r, stamps, between, k).1 == []
    ensures if k == 0 then After(r, stamps, between, k).0 == r else Among(After(r, stamps, between, k).0, stamps, k)
    ensures After(r, stamps, between, k).0.state.flagged == (r.state.flagged || 14 < k)
  {
    if k > 0 {
      NoLookYet(r, stamps, between, v, n, k - 1);
      var p := After(r, stamps, between, k - 1).0;
      EdgeJoins(p, stamps, v, n, k);
      NothingBetween(Next(p, Stamp(stamps[k - 1])).0, between[k - 1]);
    }
  }

  /** The last edge, and the moves after it, by which every look ends. */
  lemma LastEdge(r: Reader, stamps: seq<int>, between: seq<seq<Move>>, v: nat, n: nat)
    requires n == T.GLOBAL_LENGTH_BITS || n == T.ATTACK_LENGTH_BITS
    requires v < Pow2(n) && Carries(stamps, v, n) && |between| == n + 1 && NoStamps(between[n])
    requires Among(After(r, stamps, between, n).0, stamps, n)
    requires var q := After(r, stamps, between, n + 1).0; q.phase == Idle && !q.state.flagged
    ensures After(r, stamps, between, n + 1).1
         == After(r, stamps, between, n).1
            + Copies([Report(v, n)], if ReadingAt(r, stamps, between, n + 1) then 2 else 1)
  {
    var c := EdgeMore(r, stamps, between, v, n, n + 1);
    PartIsDecoded(stamps, v, n, n + 1);
    assert stamps[..n + 1] == stamps;
  }

  /** Where no look begins before the last edge, the command is reported once, and nothing else is. */
  lemma LateLookReportsOnce(r: Reader, stamps: seq<int>, between: seq<seq<Move>>, v: nat, n: nat)
    requires n == T.GLOBAL_LENGTH_BITS || n == T.ATTACK_LENGTH_BITS
    requires v < Pow2(n) && Carries(stamps, v, n) && Begins(r, stamps)
    requires |between| == n + 1 && forall k | 0 <= k < |between| :: NoStamps(between[k])
    requires NoLookBefore(r, between, n)
    requires var q := After(r, stamps, between, n + 1).0; q.phase == Idle && !q.state.flagged
    ensures After(r, stamps, between, n + 1).1 == [Report(v, n)]
  {
    NoLookYet(r, stamps, between, v, n, n);
    LastEdge(r, stamps, between, v, n);
    assert Copies([Report(v, n)], 1) == [Report(v, n)] by {
      assert Copies([Report(v, n)], 0) == [];
    }
  }

  /** An attack is reported once wherever looks come, if the flag was down before it. */
  lemma AttackIsReportedOnce(r: Reader, stamps: seq<int>, between: seq<seq<Move>>, v: nat)
    requires v < Pow2(T.ATTACK_LENGTH_BITS) && Carries(stamps, v, T.ATTACK_LENGTH_BITS) && Begins(r, stamps)
    requires |between| == T.ATTACK_LENGTH_BITS + 1 && forall k | 0 <= k < |between| :: NoStamps(between[k])
    requires !r.state.flagged
    requires var q := After(r, stamps, between, T.ATTACK_LENGTH_BITS + 1).0; q.phase == Idle && !q.state.flagged
    ensures After(r, stamps, between, T.ATTACK_LENGTH_BITS + 1).1 == [Report(v, T.ATTACK_LENGTH_BITS)]
  {
    LateLookReportsOnce(r, stamps, between, v, T.ATTACK_LENGTH_BITS);
  }

  /** So many gaps. */
  function Reads(m: nat): (moves: seq<Move>)
    ensures |moves| == m
  {
    if m == 0 then [] else Reads(m - 1) + [ReadGap]
  }

  lemma {:induction false} ReadsHaveNoStamps(m: nat)
    ensures NoStamps(Reads(m))
  {
    if m > 0 {
      ReadsHaveNoStamps(m - 1);
    }
  }

  /** Enough rounds bring a look through its gaps, if no edge comes. */
  lemma {:induction false} ReadsOn(r: Reader, m: nat)
    requires r.phase.Reading?
    ensures
      var q := Run(r, Reads(m)).0;
      && q.state == r.state
      && if m == 0 || r.phase.i + m < |r.state.stamps| then q.phase.Reading? && q.phase.i == r.phase.i + m
         else q.phase.Checking?
  {
    if m > 0 {
      ReadsOn(r, m - 1);
      assert Reads(m)[..m - 1] == Reads(m - 1);
    }
  }

  lemma {:induction false} RunInTurn(r: Reader, a: seq<Move>, b: seq<Move>)
    ensures Run(r, a + b).0 == Run(Run(r, a).0, b).0
  {
    if b == [] {
      assert a + b == a;
    } else {
      var s := a + b;
      assert s[..|s| - 1] == a + b[..|b| - 1] && s[|s| - 1] == b[|b| - 1];
      RunInTurn(r, a, b[..|b| - 1]);
    }
  }

  lemma RunOne(r: Reader, m: Move)
    ensures Run(r, [m]) == Next(r, m)
  {
    assert [m][..0] == [] && Next(r, m).1 == [] + Next(r, m).1;
  }

  /** The rest of a look, and a whole one, during which `m` edges at most are there. */
  function Rest(m: nat): seq<Move> { Reads(m) + [Check] }

  function Look(m: nat): seq<Move> { [TakeFlag] + Rest(m) }

  lemma LooksHaveNoStamps(m: nat)
    ensures NoStamps(Rest(m)) && NoStamps(Look(m))
  {
    ReadsHaveNoStamps(m);
  }

  lemma RestEnds(r: Reader, m: nat)
    requires r.phase.Reading? && 0 < |r.state.stamps| <= m
    ensures Run(r, Rest(m)).0 == r.(phase := Idle)
  {
    ReadsOn(r, m);
    RunInTurn(r, Reads(m), [Check]);
    RunOne(Run(r, Reads(m)).0, Check);
  }

  lemma LookEnds(r: Reader, m: nat)
    requires r.phase == Idle && r.state.flagged && 0 < |r.state.stamps| <= m
    ensures Run(r, Look(m)).0 == r.(state := r.state.(flagged := false))
  {
    RunOne(r, TakeFlag);
    var p := Next(r, TakeFlag).0;
    RestEnds(p, m);
    RunInTurn(r, [TakeFlag], Rest(m));
  }

  /** The last edges of a command without a look between them. */
  lemma {:induction false} QuietEdges(r: Reader, stamps: seq<int>, between: seq<seq<Move>>, v: nat, n: nat,
                                      j: nat, k: nat)
    requires Carries(stamps, v, n) && 14 <= j <= k <= |between| <= n + 1 && forall i | j <= i < k :: between[i] == []
    requires Among(After(r, stamps, between, j).0, stamps, j) && After(r, stamps, between, j).0.phase == Idle
    ensures Among(After(r, stamps, between, k).0, stamps, k) && After(r, stamps, between, k).0.phase == Idle
    ensures After(r, stamps, between, k).1 == After(r, stamps, between, j).1
    ensures j < k ==> After(r, stamps, between, k).0.state.flagged
  {
    if j < k {
      QuietEdges(r, stamps, between, v, n, j, k - 1);
      NextEdge(After(r, stamps, between, k - 1).0, stamps, v, n, k - 1);
    }
  }

  /** One look after the last edge. */
  lemma LookAtLast(r: Reader, stamps: seq<int>, between: seq<seq<Move>>, v: nat, n: nat)
    requires n == T.GLOBAL_LENGTH_BITS && v < Pow2(n) && Carries(stamps, v, n)
    requires |between| == n + 1 && between[n] == Look(n + 1)
    requires Among(After(r, stamps, between, n).0, stamps, n) && After(r, stamps, between, n).0.phase == Idle
    ensures NoStamps(between[n])
    ensures var q := After(r, stamps, between, n + 1).0; q.phase == Idle && !q.state.flagged
    ensures After(r, stamps, between, n + 1).1 == After(r, stamps, between, n).1 + [Report(v, n)]
  {
    var p := After(r, stamps, between, n).0;
    NextEdge(p, stamps, v, n, n);
    LookEnds(Next(p, Stamp(stamps[n])).0, n + 1);
    LooksHaveNoStamps(n + 1);
    LastEdge(r, stamps, between, v, n);
    assert Copies([Report(v, n)], 1) == Copies([Report(v, n)], 0) + [Report(v, n)];
  }

  /** A look that checks the first 15 edges of a longer command, and one after the last edge. */
  function LookedEarly(): (between: seq<seq<Move>>)
    ensures |between| == T.GLOBAL_LENGTH_BITS + 1
  {
    var n := T.GLOBAL_LENGTH_BITS;
    seq(n + 1, i => if i == T.ATTACK_LENGTH_BITS || i == n then Look(i + 1) else [])
  }

  lemma EarlyLook(r: Reader, stamps: seq<int>, v: nat)
    requires v < Pow2(T.GLOBAL_LENGTH_BITS) && Carries(stamps, v, T.GLOBAL_LENGTH_BITS) && Begins(r, stamps)
    ensures
      var (q, reports) := After(r, stamps, LookedEarly(), 15);
      Among(q, stamps, 15) && q.phase == Idle && !q.state.flagged && reports == Short(v, T.GLOBAL_LENGTH_BITS)
  {
    var between, n := LookedEarly(), T.GLOBAL_LENGTH_BITS;
    NoLookYet(r, stamps, between, v, n, 14);
    var p := After(r, stamps, between, 14).0;
    NextEdge(p, stamps, v, n, 14);
    LookEnds(Next(p, Stamp(stamps[14])).0, 15);
    LooksHaveNoStamps(15);
    var c := EdgeMore(r, stamps, between, v, n, 15);
    PartIsDecoded(stamps, v, n, 15);
    assert Copies(Short(v, n), 1) == Copies(Short(v, n), 0) + Short(v, n);
  }

  /** So every 24 bit command, on any edges that carry it, may be reported as an attack before it is reported. */
  lemma FalseAttack(r: Reader, stamps: seq<int>, v: nat)
    requires v < Pow2(T.GLOBAL_LENGTH_BITS) && Carries(stamps, v, T.GLOBAL_LENGTH_BITS) && Begins(r, stamps)
    ensures
      var (q, reports) := After(r, stamps, LookedEarly(), T.GLOBAL_LENGTH_BITS + 1);
      && (forall k | 0 <= k < |LookedEarly()| :: NoStamps(LookedEarly()[k]))
      && q.phase == Idle && !q.state.flagged
      && reports == Short(v, T.GLOBAL_LENGTH_BITS) + [Report(v, T.GLOBAL_LENGTH_BITS)]
  {
    var between, n := LookedEarly(), T.GLOBAL_LENGTH_BITS;
    EarlyLook(r, stamps, v);
    QuietEdges(r, stamps, between, v, n, 15, n);
    LookAtLast(r, stamps, between, v, n);
    LooksHaveNoStamps(T.ATTACK_LENGTH_BITS + 1);
  }

  /** A look that begins before the last edge and is still reading then, and one more. */
  function LookedAcross(): (between: seq<seq<Move>>)
    ensures |between| == T.GLOBAL_LENGTH_BITS + 1
  {
    var n := T.GLOBAL_LENGTH_BITS;
    seq(n + 1, i => if i == n - 1 then [TakeFlag] else if i == n then Rest(n + 1) + Look(n + 1) else [])
  }

  lemma LookBegun(r: Reader, stamps: seq<int>, v: nat)
    requires v < Pow2(T.GLOBAL_LENGTH_BITS) && Carries(stamps, v, T.GLOBAL_LENGTH_BITS) && Begins(r, stamps)
    ensures
      var (q, reports) := After(r, stamps, LookedAcross(), T.GLOBAL_LENGTH_BITS);
      Among(q, stamps, T.GLOBAL_LENGTH_BITS) && q.phase == Reading(0, 0, 0) && reports == []
  {
    var between, n := LookedAcross(), T.GLOBAL_LENGTH_BITS;
    NoLookYet(r, stamps, between, v, n, n - 1);
    var p := After(r, stamps, between, n - 1).0;
    NextEdge(p, stamps, v, n, n - 1);
    RunOne(Next(p, Stamp(stamps[n - 1])).0, TakeFlag);
  }

  /** So every 24 bit command may be reported twice. */
  lemma SecondReport(r: Reader, stamps: seq<int>, v: nat)
    requires v < Pow2(T.GLOBAL_LENGTH_BITS) && Carries(stamps, v, T.GLOBAL_LENGTH_BITS) && Begins(r, stamps)
    ensures
      var (q, reports) := After(r, stamps, LookedAcross(), T.GLOBAL_LENGTH_BITS + 1);
      && (forall k | 0 <= k < |LookedAcross()| :: NoStamps(LookedAcross()[k]))
      && q.phase == Idle && !q.state.flagged
      && reports == [Report(v, T.GLOBAL_LENGTH_BITS), Report(v, T.GLOBAL_LENGTH_BITS)]
  {
    var between, n := LookedAcross(), T.GLOBAL_LENGTH_BITS;
    LookBegun(r, stamps, v);
    var p := After(r, stamps, between, n).0;
    NextEdge(p, stamps, v, n, n);
    var e := Next(p, Stamp(stamps[n])).0;
    RestEnds(e, n + 1);
    LookEnds(e.(phase := Idle), n + 1);
    LooksHaveNoStamps(n + 1);
    RunInTurn(e, Rest(n + 1), Look(n + 1));
    LastEdge(r, stamps, between, v, n);
    assert Copies([Report(v, n)], 1) == Copies([Report(v, n)], 0) + [Report(v, n)];
  }

  // ----- any edges

  /** The bits read are those of the first `j` gaps. */
  predicate ReadOf(stamps: seq<int>, j: nat, data: nat, bits: nat)
  {
    (j == 0 || j < |stamps|) && data == Ones(stamps, j) && bits == Read(stamps, j)
  }

  /** What a look has read is what the edges there are now say. */
  ghost predicate ReadsItsEdges(r: Reader)
  {
    match r.phase
    case Idle => true
    case Reading(i, data, bits) => ReadOf(r.state.stamps, i, data, bits)
    case Checking(data, bits) => exists j: nat :: ReadOf(r.state.stamps, j, data, bits)
  }

  lemma {:induction false} EdgeKeepsRead(stamps: seq<int>, now: int, j: nat)
    requires j == 0 || j < |stamps|
    ensures Ones(stamps + [now], j) == Ones(stamps, j) && Read(stamps + [now], j) == Read(stamps, j)
  {
    if j > 0 {
      EdgeKeepsRead(stamps, now, j - 1);
      assert Gap(stamps + [now], j - 1) == Gap(stamps, j - 1);
    }
  }

  /** An edge that comes during a look is not late. */
  predicate NoneLate(r: Reader, m: Move)
  {
    m.Stamp? && r.phase != Idle ==> !IsLate(r.state.stamps, m.now)
  }

  lemma MoveReadsEdges(r: Reader, m: Move)
    requires ReadsItsEdges(r) && NoneLate(r, m)
    ensures ReadsItsEdges(Next(r, m).0)
  {
    match m
    case Stamp(now) =>
      if r.phase.Reading? {
        EdgeKeepsRead(r.state.stamps, now, r.phase.i);
      } else if r.phase.Checking? {
        var j: nat :| ReadOf(r.state.stamps, j, r.phase.data, r.phase.bits);
        EdgeKeepsRead(r.state.stamps, now, j);
        assert ReadOf(r.state.stamps + [now], j, r.phase.data, r.phase.bits);
      }
    case TakeFlag =>
    case ReadGap =>
    case Check =>
  }

  /** No silence begins and ends during a look. */
  ghost predicate NoSilenceInLook(r: Reader, moves: seq<Move>)
  {
    forall k | 0 <= k < |moves| :: NoneLate(Run(r, moves[..k]).0, moves[k])
  }

  lemma {:induction false} RunReadsEdges(r: Reader, moves: seq<Move>)
    requires ReadsItsEdges(r) && NoSilenceInLook(r, moves)
    ensures ReadsItsEdges(Run(r, moves).0)
  {
    if moves != [] {
      var first, k := moves[..|moves| - 1], |moves| - 1;
      forall i | 0 <= i < k ensures NoneLate(Run(r, first[..i]).0, first[i]) {
        assert first[..i] == moves[..i] && NoneLate(Run(r, moves[..i]).0, moves[i]);
      }
      RunReadsEdges(r, first);
      MoveReadsEdges(Run(r, first).0, moves[k]);
    }
  }

  /**
    Whatever edges come, and however they fall within looks: a value that is reported fits its length, and the edges
    there are at that moment carry it, unless a silence ended during a look.
   */
  lemma ReportIsCarried(r: Reader, moves: seq<Move>, m: Move, v: nat, n: nat)
    requires r.phase == Idle && NoSilenceInLook(r, moves) && Next(Run(r, moves).0, m).1 == [Report(v, n)]
    ensures (n == T.GLOBAL_LENGTH_BITS || n == T.ATTACK_LENGTH_BITS) && v < Pow2(n)
    ensures Carries(Run(r, moves).0.state.stamps, v, n)
  {
    RunReadsEdges(r, moves);
    var q := Run(r, moves).0;
    var j: nat :| ReadOf(q.state.stamps, j, q.phase.data, q.phase.bits);
    assert j == n;
    OneValueIsCarried(q.state.stamps, n);
  }
}
