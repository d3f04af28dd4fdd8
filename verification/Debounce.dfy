/** The debounce thread of the folder watcher. What reaches the thread is a list of items:
    a raw event, or a quiet time as long as the debounce window; after the last item the
    sender is gone. The shutdown signal can be received once `shutdown` items have gone by
    (a number above the length of the list: never). */
module Debounce {

  // `relevant` is what `consume` answers for the event.
  datatype Item = Event(relevant: bool) | Quiet

  ghost predicate Events(items: seq<Item>, lo: nat, hi: nat)
    requires hi <= |items|
  {
    forall k | lo <= k < hi :: items[k].Event?
  }

  // items[start..close] is a longest run of events without a quiet time in between.
  ghost predicate Burst(items: seq<Item>, start: nat, close: nat) {
    && start < close <= |items|
    && Events(items, start, close)
    && (start == 0 || items[start - 1].Quiet?)
    && (close == |items| || items[close].Quiet?)
  }

  ghost predicate HoldsRelevant(items: seq<Item>, start: nat, close: nat)
    requires close <= |items|
  {
    exists k :: start <= k < close && items[k] == Event(true)
  }

  ghost predicate RelevantBurst(items: seq<Item>, start: nat, close: nat) {
    Burst(items, start, close) && HoldsRelevant(items, start, close)
  }

  // A burst with a relevant event closes here.
  ghost predicate Announces(items: seq<Item>, close: nat) {
    exists start: nat :: RelevantBurst(items, start, close)
  }

  ghost predicate Increasing(s: seq<nat>) {
    forall i, j | 0 <= i < j < |s| :: s[i] < s[j]
  }

  // Every event is in exactly one burst.
  lemma BurstOf(items: seq<Item>, k: nat) returns (start: nat, close: nat)
    requires k < |items| && items[k].Event?
    ensures Burst(items, start, close) && start <= k < close
    ensures forall i: nat, j: nat | Burst(items, i, j) && i <= k < j :: i == start && j == close
  {
    start, close := k, k + 1;
    while start > 0 && items[start - 1].Event?
      invariant start <= k && Events(items, start, k + 1)
    {
      start := start - 1;
    }
    while close < |items| && items[close].Event?
      invariant k < close <= |items| && Events(items, start, close)
    {
      close := close + 1;
    }
    forall i: nat, j: nat | Burst(items, i, j) && i <= k < j ensures i == start && j == close {
      SameBurst(items, k, start, close, i, j);
    }
  }

  lemma SameBurst(items: seq<Item>, k: nat, start: nat, close: nat, i: nat, j: nat)
    requires Burst(items, start, close) && start <= k < close
    requires Burst(items, i, j) && i <= k < j
    ensures i == start && j == close
  {
  }

  // `recv` waits through quiet times.
  function NextEvent(items: seq<Item>, pos: nat): (next: nat)
    requires pos <= |items|
    ensures pos <= next <= |items|
    ensures forall k | pos <= k < next :: items[k].Quiet?
    ensures next < |items| ==> items[next].Event?
    decreases |items| - pos
  {
    if pos < |items| && items[pos].Quiet? then NextEvent(items, pos + 1) else pos
  }

  // What holds at the top of the outer loop: the bursts closed so far are settled.
  ghost predicate Settled(items: seq<Item>, shutdown: nat, pos: nat, emitted: seq<nat>) {
    && pos <= |items|
    && (pos == 0 || pos == |items| || items[pos - 1].Quiet?)
    && Increasing(emitted)
    && (forall j | j in emitted :: j <= pos)
    && (forall j: nat | j <= pos :: j in emitted <==> Announces(items, j))
    && (forall i: nat, j: nat | Burst(items, i, j) && j <= pos :: j < shutdown)
  }

  // Between the settled position and an open burst nothing closes.
  lemma NothingClosesInBetween(items: seq<Item>, pos: nat, start: nat, now: nat, i: nat, j: nat)
    requires pos <= start < now <= |items|
    requires forall k | pos <= k < start :: items[k].Quiet?
    requires Events(items, start, now)
    requires Burst(items, i, j) && j < now
    ensures j <= pos
  {
    assert items[j - 1].Event?;
    assert items[j].Quiet?;
  }

  lemma Settles(items: seq<Item>, shutdown: nat, pos: nat, emitted: seq<nat>, start: nat, close: nat, pending: bool)
    requires Settled(items, shutdown, pos, emitted)
    requires Burst(items, start, close) && close < shutdown
    requires pos <= start && forall k | pos <= k < start :: items[k].Quiet?
    requires pending <==> HoldsRelevant(items, start, close)
    ensures Settled(items, shutdown, if close < |items| then close + 1 else close,
                    if pending then emitted + [close] else emitted)
  {
    var next := if close < |items| then close + 1 else close;
    var more := if pending then emitted + [close] else emitted;
    forall i: nat, j: nat | Burst(items, i, j) && j <= next ensures j <= pos || (i == start && j == close) {
      if j < close {
        NothingClosesInBetween(items, pos, start, close, i, j);
      } else {
        assert items[j - 1].Event?;
        assert j == close;
        SameBurst(items, close - 1, start, close, i, j);
      }
    }
    assert pending ==> RelevantBurst(items, start, close);
    forall j: nat | j <= next ensures j in more <==> Announces(items, j) {
      if Announces(items, j) {
        var i: nat :| RelevantBurst(items, i, j);
        assert Burst(items, i, j);
      }
    }
    forall i | 0 <= i < |emitted| ensures emitted[i] < close {
      assert emitted[i] in emitted;
    }
  }

  // Exactly the bursts with a relevant event that close before the shutdown signal are
  // announced, each once and in order. The thread ends by the signal exactly when some
  // burst is open or closes at or after it.
  method DebounceLoop(items: seq<Item>, shutdown: nat) returns (emitted: seq<nat>, stopped: bool)
    ensures Increasing(emitted)
    ensures forall j: nat :: j in emitted <==> j < shutdown && Announces(items, j)
    ensures stopped <==> exists i: nat, j: nat :: Burst(items, i, j) && j >= shutdown
  {
    var pos := 0;
    emitted, stopped := [], false;
    while true
      invariant Settled(items, shutdown, pos, emitted) && !stopped
      decreases |items| - pos
    {
      var start := NextEvent(items, pos);
      if start == |items| {
        AllSettled(items, shutdown, pos, emitted);
        return;
      }
      var pending := items[start].relevant;
      var close := start + 1;
      while true
        invariant start < close <= |items| && Events(items, start, close)
        invariant pending <==> HoldsRelevant(items, start, close)
        invariant close - 1 < shutdown || close == start + 1
        decreases |items| - close
      {
        if close >= shutdown {
          stopped := true;
          Interrupted(items, shutdown, pos, emitted, start, close);
          return;
        }
        if close == |items| || items[close].Quiet? { break; }
        pending := pending || items[close].relevant;
        close := close + 1;
      }
      Settles(items, shutdown, pos, emitted, start, close, pending);
      if pending {
        emitted := emitted + [close];
      }
      pos := if close < |items| then close + 1 else close;
    }
  }

  lemma AllSettled(items: seq<Item>, shutdown: nat, pos: nat, emitted: seq<nat>)
    requires Settled(items, shutdown, pos, emitted)
    requires forall k | pos <= k < |items| :: items[k].Quiet?
    ensures forall j: nat :: j in emitted <==> j < shutdown && Announces(items, j)
    ensures forall i: nat, j: nat | Burst(items, i, j) :: j < shutdown
  {
    forall i: nat, j: nat | Burst(items, i, j) ensures j <= pos {
      assert items[j - 1].Event?;
    }
    forall j: nat ensures j in emitted <==> j < shutdown && Announces(items, j) {
      if Announces(items, j) {
        var i: nat :| RelevantBurst(items, i, j);
        assert Burst(items, i, j);
      }
    }
  }

  lemma Interrupted(items: seq<Item>, shutdown: nat, pos: nat, emitted: seq<nat>, start: nat, now: nat)
    requires Settled(items, shutdown, pos, emitted)
    requires pos <= start < now <= |items| && shutdown <= now
    requires forall k | pos <= k < start :: items[k].Quiet?
    requires Events(items, start, now)
    ensures forall j: nat :: j in emitted <==> j < shutdown && Announces(items, j)
    ensures exists i: nat, j: nat :: Burst(items, i, j) && j >= shutdown
  {
    var i0, j0 := BurstOf(items, now - 1);
    forall j: nat ensures j in emitted <==> j < shutdown && Announces(items, j) {
      if j < shutdown && Announces(items, j) {
        var i: nat :| RelevantBurst(items, i, j);
        NothingClosesInBetween(items, pos, start, now, i, j);
      }
      if j in emitted {
        var i: nat :| RelevantBurst(items, i, j);
        assert Burst(items, i, j);
      }
    }
  }

  // Without a shutdown signal every relevant event is announced, by the one emission at
  // the close of its burst.
  lemma EveryRelevantEventIsAnnounced(items: seq<Item>, emitted: seq<nat>, k: nat) returns (n: nat)
    requires Increasing(emitted) && forall j: nat :: j in emitted <==> Announces(items, j)
    requires k < |items| && items[k] == Event(true)
    ensures n < |emitted| && k < emitted[n] <= |items| && Events(items, k, emitted[n])
    ensures emitted[n] == |items| || items[emitted[n]].Quiet?
    ensures n > 0 ==> emitted[n - 1] < k
  {
    var start, close := BurstOf(items, k);
    assert RelevantBurst(items, start, close);
    assert close in emitted;
    n :| 0 <= n < |emitted| && emitted[n] == close;
    if n > 0 {
      assert emitted[n - 1] in emitted;
      var i: nat :| RelevantBurst(items, i, emitted[n - 1]);
    }
  }
}
