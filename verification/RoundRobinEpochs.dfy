/**
 The rounds of probes across a wrap of the cursor. Between two wraps, an epoch,
 the servers are probed in turn; a wrap shifts the turn by `WORD % size`.
 */
module RoundRobinEpochs {
  import opened Arith
  import opened RoundRobin

  // -------------------------------------------------------- epochs in the log

  /** Epochs never decrease, and one lasts longer than a word of probes unless it is the first or the last. */
  ghost predicate EpochsInOrder(log: seq<Visit>) {
    forall m, n :: 0 <= m <= n < |log| ==>
      && log[m].epoch <= log[n].epoch
      && (log[m].epoch + 1 < log[n].epoch ==> WORD < n - m)
  }

  /** Since a probe of an earlier epoch the cursor has started from zero, twice if it is earlier by two. */
  ghost predicate EpochPast(s: State, n: nat)
    requires n < |s.log|
  {
    && (s.log[n].epoch < s.wraps ==> s.cursor < |s.log| - n)
    && (s.log[n].epoch + 1 < s.wraps ==> WORD < |s.log| - n)
  }

  ghost predicate EpochInv(s: State) {
    EpochsInOrder(s.log) && forall n :: 0 <= n < |s.log| ==> EpochPast(s, n)
  }

  lemma FetchAddKeepsPast(s: State, c: CallId, n: nat)
    requires |s.good| > 0 && s.cursor < WORD && Enabled(s, FetchAdd(c)) && n <= |s.log|
    requires n < |s.log| ==> EpochPast(s, n) && s.log[n].epoch <= s.wraps
    ensures EpochPast(Effect(s, FetchAdd(c)), n)
  {
    if s.cursor + 1 < WORD { ModSmall(s.cursor + 1, WORD); }
  }

  lemma OrderedSnoc(s: State, v: Visit)
    requires EpochInv(s) && v.epoch == s.wraps && forall n :: 0 <= n < |s.log| ==> s.log[n].epoch <= s.wraps
    ensures EpochsInOrder(s.log + [v])
  {
    var log := s.log + [v];
    forall m, n | 0 <= m <= n < |log|
      ensures log[m].epoch <= log[n].epoch && (log[m].epoch + 1 < log[n].epoch ==> WORD < n - m)
    {
      if m < n == |s.log| { assert EpochPast(s, m); }
    }
  }

  lemma FetchAddKeepsEpochs(s: State, c: CallId)
    requires Inv(s) && EpochInv(s) && Enabled(s, FetchAdd(c))
    ensures EpochInv(Effect(s, FetchAdd(c)))
  {
    var t := Effect(s, FetchAdd(c));
    assert forall n :: 0 <= n < |s.log| ==> s.log[n].epoch <= s.wraps;
    OrderedSnoc(s, t.log[|s.log|]);
    forall n | 0 <= n < |t.log|
      ensures EpochPast(t, n)
    {
      FetchAddKeepsPast(s, c, n);
    }
  }

  lemma ExchangeKeepsEpochs(s: State, c: CallId)
    requires Inv(s) && EpochInv(s) && Enabled(s, CasSucceed(c))
    ensures EpochInv(Effect(s, CasSucceed(c)))
  {
    assert CallInv(s, c);
    ModAtMost(s.cursor, |s.good|);
    forall n | 0 <= n < |s.log|
      ensures EpochPast(Effect(s, CasSucceed(c)), n)
    {
      assert EpochPast(s, n);
    }
  }

  lemma OthersKeepEpochs(s: State, step: Step)
    requires EpochInv(s) && Enabled(s, step) && !step.FetchAdd? && !step.CasSucceed?
    ensures EpochInv(Effect(s, step))
  {
    var t := Effect(s, step);
    assert t.log == s.log && t.wraps == s.wraps && t.cursor == s.cursor;
    forall n | 0 <= n < |t.log|
      ensures EpochPast(t, n)
    {
      assert EpochPast(s, n);
    }
  }

  lemma {:induction false} RunKeepsEpochs(good: seq<bool>, steps: seq<Step>)
    requires |good| > 0
    ensures EpochInv(Exec(Init(good), steps))
  {
    if steps != [] {
      var front, step := steps[..|steps| - 1], steps[|steps| - 1];
      RunKeepsEpochs(good, front);
      RunKeepsInv(good, front);
      var s := Exec(Init(good), front);
      if Enabled(s, step) {
        match step
        case FetchAdd(c) => FetchAddKeepsEpochs(s, c);
        case CasSucceed(c) => ExchangeKeepsEpochs(s, c);
        case _ => OthersKeepEpochs(s, step);
      }
    }
  }

  // ------------------------------------------------------------------ a round

  /** Exactly one of the `size` probes from `start` on lands on server `i`. */
  ghost predicate MetOnce(log: seq<Visit>, start: nat, size: nat, i: nat)
    requires start + size <= |log|
  {
    exists n :: start <= n < start + size && log[n].server == i
                && forall k :: start <= k < start + size && log[k].server == i ==> k == n
  }

  /** No wrap falls between the `size` probes from `start` on, or a wrap falls on the turn. */
  predicate Unbroken(log: seq<Visit>, start: nat, size: nat)
    requires 0 < size && start + size <= |log|
  {
    log[start].epoch == log[start + size - 1].epoch || WORD % size == 0
  }

  /** The server of a probe, as far as its number and its epoch determine it. */
  lemma ServerOf(s: State, n: nat, turn: int)
    requires Inv(s) && n < |s.log|
    ensures s.log[n].server == turn % |s.good| <==>
              (turn + s.log[n].epoch * WORD) % |s.good| == n % |s.good|
  {
    var v, size := s.log[n], |s.good|;
    ModSmall(v.server, size);
    ModEqual(v.server, turn, size);
    ModEqual(v.server + v.epoch * WORD, turn + v.epoch * WORD, size);
    assert (v.server + v.epoch * WORD) - (turn + v.epoch * WORD) == v.server - turn;
  }

  /** In an unbroken round there is one number whose probes land on `i`, up to multiples of the size. */
  lemma UnbrokenTurn(s: State, start: nat, i: nat) returns (turn: nat)
    requires Inv(s) && EpochInv(s) && i < |s.good|
    requires start + |s.good| <= |s.log| && Unbroken(s.log, start, |s.good|)
    ensures forall n :: start <= n < start + |s.good| ==>
              (s.log[n].server == i <==> n % |s.good| == turn % |s.good|)
  {
    var size, e := |s.good|, s.log[start].epoch;
    turn := if WORD % size == 0 then i else i + e * WORD;
    forall n | start <= n < start + size
      ensures s.log[n].server == i <==> n % size == turn % size
    {
      ServerOf(s, n, i);
      ModSmall(i, size);
      if WORD % size == 0 {
        ModWholeWords(i, s.log[n].epoch, WORD, size);
      } else {
        assert s.log[start].epoch <= s.log[n].epoch <= s.log[start + size - 1].epoch;
      }
    }
  }

  /** An unbroken round meets each server exactly once. */
  lemma UnbrokenMeets(s: State, start: nat, i: nat) returns (n: nat)
    requires Inv(s) && EpochInv(s) && i < |s.good|
    requires start + |s.good| <= |s.log| && Unbroken(s.log, start, |s.good|)
    ensures start <= n < start + |s.good| && s.log[n].server == i
    ensures MetOnce(s.log, start, |s.good|, i)
  {
    var turn := UnbrokenTurn(s, start, i);
    n := WindowMeets(start, turn % |s.good|, |s.good|);
  }

  /** The probes from `start` up to `mid` belong to one epoch, the others of the round to the next. */
  predicate BrokenAt(log: seq<Visit>, start: nat, mid: nat, size: nat)
    requires start + size <= |log|
  {
    && start < mid < start + size
    && (forall n :: start <= n < mid ==> log[n].epoch == log[start].epoch)
    && (forall n :: mid <= n < start + size ==> log[n].epoch == log[start].epoch + 1)
  }

  lemma WhereBroken(s: State, start: nat) returns (mid: nat)
    requires EpochInv(s) && 0 < |s.good| <= WORD && start + |s.good| <= |s.log|
    requires !Unbroken(s.log, start, |s.good|)
    ensures BrokenAt(s.log, start, mid, |s.good|)
  {
    var e, last := s.log[start].epoch, start + |s.good| - 1;
    mid := start;
    while s.log[mid].epoch == e
      invariant start <= mid <= last
      invariant forall n :: start <= n < mid ==> s.log[n].epoch == e
      decreases last - mid
    {
      assert s.log[last].epoch != e;
      mid := mid + 1;
    }
    forall n | mid <= n <= last
      ensures s.log[n].epoch == e + 1
    {
      assert s.log[start].epoch <= s.log[mid].epoch <= s.log[n].epoch;
      assert n - start <= WORD;
    }
  }

  /** A probe less than a round away from a turn, whole rounds aside, misses the server of that turn. */
  lemma TurnMisses(s: State, n: nat, turn: int, k: int)
    requires Inv(s) && n < |s.log|
    requires 0 < turn + s.log[n].epoch * WORD - n - k * |s.good| < |s.good|
    ensures s.log[n].server != turn % |s.good|
  {
    ServerOf(s, n, turn);
    Incongruent(turn + s.log[n].epoch * WORD, n, k, |s.good|);
  }

  /** The turn that a round broken at `mid` leaves out, when a word is `words` rounds and `r` turns. */
  function LeftOut(log: seq<Visit>, start: nat, mid: nat, size: nat, r: nat): int
    requires start + size <= |log| && BrokenAt(log, start, mid, size)
  {
    var rest := start + size - mid;
    mid + (if r < rest then rest - r else 0) - log[start].epoch * WORD
  }

  lemma LeftOutMissed(s: State, start: nat, mid: nat, words: nat, r: nat, n: nat)
    requires Inv(s) && WORD == words * |s.good| + r && 0 < r < |s.good|
    requires start + |s.good| <= |s.log| && BrokenAt(s.log, start, mid, |s.good|)
    requires start <= n < start + |s.good|
    ensures s.log[n].server != LeftOut(s.log, start, mid, |s.good|, r) % |s.good|
  {
    var turn := LeftOut(s.log, start, mid, |s.good|, r);
    if n < mid {
      TurnMisses(s, n, turn, 0);
    } else {
      TurnMisses(s, n, turn, words);
    }
  }

  /** A round broken by a wrap leaves some server out. */
  lemma BrokenMisses(s: State, start: nat, mid: nat) returns (i: nat)
    requires Inv(s) && WORD % |s.good| != 0
    requires start + |s.good| <= |s.log| && BrokenAt(s.log, start, mid, |s.good|)
    ensures i < |s.good| && forall n :: start <= n < start + |s.good| ==> s.log[n].server != i
  {
    var words, r := Divide(WORD, |s.good|);
    var turn := LeftOut(s.log, start, mid, |s.good|, r);
    i := turn % |s.good|;
    forall n | start <= n < start + |s.good|
      ensures s.log[n].server != turn % |s.good|
    {
      LeftOutMissed(s, start, mid, words, r, n);
    }
  }

  /**
   For no more servers than the word counts: `size` consecutive probes land on
   each server exactly once if and only if no wrap falls between them, or the
   count divides the word.
   */
  lemma RoundMeetsEachOnce(good: seq<bool>, steps: seq<Step>, start: nat)
    requires 0 < |good| <= WORD && start + |good| <= |Exec(Init(good), steps).log|
    ensures var log := Exec(Init(good), steps).log;
            (forall i :: 0 <= i < |good| ==> MetOnce(log, start, |good|, i)) <==> Unbroken(log, start, |good|)
  {
    var s := Exec(Init(good), steps);
    RunKeepsInv(good, steps);
    RunKeepsEpochs(good, steps);
    if Unbroken(s.log, start, |good|) {
      forall i | 0 <= i < |good|
        ensures MetOnce(s.log, start, |good|, i)
      {
        var n := UnbrokenMeets(s, start, i);
      }
    } else {
      var mid := WhereBroken(s, start);
      var i := BrokenMisses(s, start, mid);
      assert !MetOnce(s.log, start, |good|, i);
    }
  }
}
