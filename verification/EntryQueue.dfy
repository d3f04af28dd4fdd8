/** The pending queue of external requests: bounded, and deduplicated by digest over a
    window of time. Time is an argument that never runs backwards. */
module EntryQueue {
  import opened Options
  import opened StringOrder

  const MAX_PENDING := 16
  const MAX_RECENT := 32
  const DUPLICATE_WINDOW := 5000  // milliseconds

  datatype Request = Request(digest: string, bundleRoot: string)

  datatype Preview = Preview(requestId: nat, bundleRoot: string)

  datatype Seen = Seen(digest: string, at: nat)

  datatype QueueResult = Accepted(preview: Preview) | Duplicate | Full

  // saturating_duration_since
  function Age(now: nat, seen: nat): nat {
    if now >= seen then now - seen else 0
  }

  predicate Expired(s: Seen, now: nat): (expired: bool)
    ensures expired <==> now > s.at + 5000
  {
    Age(now, s.at) > DUPLICATE_WINDOW
  }

  // `retain` on the recent list.
  function Unexpired(recent: seq<Seen>, now: nat): seq<Seen> {
    if recent == [] then []
    else
      var last := recent[|recent| - 1];
      Unexpired(recent[..|recent| - 1], now) + if Expired(last, now) then [] else [last]
  }

  lemma UnexpiredSnoc(front: seq<Seen>, last: Seen, now: nat)
    ensures Unexpired(front + [last], now) == Unexpired(front, now) + if Expired(last, now) then [] else [last]
  {
    assert (front + [last])[..|front|] == front;
  }

  // The first k have expired and the others have not.
  ghost predicate SplitAt(recent: seq<Seen>, k: nat, now: nat) {
    k <= |recent| && forall i | 0 <= i < |recent| :: Expired(recent[i], now) <==> i < k
  }

  lemma SplitOfFront(front: seq<Seen>, last: Seen, k: nat, now: nat)
    requires SplitAt(front + [last], k, now)
    ensures SplitAt(front, if k <= |front| then k else |front|, now)
    ensures Expired(last, now) <==> k == |front| + 1
  {
    var all := front + [last];
    assert all[|front|] == last;
    forall i | 0 <= i < |front| ensures Expired(front[i], now) <==> i < k { assert all[i] == front[i]; }
  }

  lemma {:induction false} UnexpiredOfSplit(recent: seq<Seen>, k: nat, now: nat)
    requires SplitAt(recent, k, now)
    ensures Unexpired(recent, now) == recent[k..]
  {
    if recent != [] {
      var (front, last) := (recent[..|recent| - 1], recent[|recent| - 1]);
      assert recent == front + [last];
      SplitOfFront(front, last, k, now);
      UnexpiredSnoc(front, last, now);
      UnexpiredOfSplit(front, if k <= |front| then k else |front|, now);
      if k <= |front| { assert front[k..] + [last] == recent[k..]; }
    }
  }

  // In a list ordered by time, what expired is a beginning of the list.
  lemma UnexpiredIsATail(recent: seq<Seen>, now: nat) returns (k: nat)
    requires forall i, j | 0 <= i < j < |recent| :: recent[i].at <= recent[j].at
    ensures SplitAt(recent, k, now) && Unexpired(recent, now) == recent[k..]
  {
    k := 0;
    while k < |recent| && Expired(recent[k], now)
      invariant k <= |recent| && forall i | 0 <= i < k :: Expired(recent[i], now)
    {
      k := k + 1;
    }
    UnexpiredOfSplit(recent, k, now);
  }

  function Find(entries: seq<Preview>, id: nat): Option<Preview> {
    if entries == [] then None
    else if entries[0].requestId == id then Some(entries[0])
    else Find(entries[1..], id)
  }

  function Without(entries: seq<Preview>, id: nat): seq<Preview> {
    if entries == [] then []
    else
      var last := entries[|entries| - 1];
      Without(entries[..|entries| - 1], id) + if last.requestId == id then [] else [last]
  }

  // ----- What is kept about the accepted requests

  ghost predicate ByTime(seen: seq<Seen>, clock: nat) {
    && (forall i, j | 0 <= i < j < |seen| :: seen[i].at <= seen[j].at)
    && (forall i | 0 <= i < |seen| :: seen[i].at <= clock)
  }

  ghost predicate DistinctDigests(seen: seq<Seen>) {
    forall i, j | 0 <= i < j < |seen| :: seen[i].digest != seen[j].digest
  }

  // `recent` is the end of the accepted list from `dropped` on; what it dropped had
  // expired, or has at least MAX_RECENT accepted requests behind it.
  ghost predicate RecentOk(accepted: seq<Seen>, recent: seq<Seen>, dropped: nat, clock: nat) {
    && dropped <= |accepted| && recent == accepted[dropped..]
    && DistinctDigests(recent)
    && (forall i | 0 <= i < dropped :: Expired(accepted[i], clock) || i + MAX_RECENT < |accepted|)
  }

  // The same digest is accepted twice within the window only with at least MAX_RECENT
  // other accepted requests in between.
  ghost predicate NoEarlyRepeat(accepted: seq<Seen>) {
    forall i, j | 0 <= i < j < |accepted| && accepted[i].digest == accepted[j].digest ::
      accepted[j].at > accepted[i].at + 5000 || j - i - 1 >= 32
  }

  // The digest is in the list.
  predicate Names(recent: seq<Seen>, digest: string) {
    exists i :: 0 <= i < |recent| && recent[i].digest == digest
  }

  // The digest was seen and has not expired.
  ghost predicate SeenLately(recent: seq<Seen>, digest: string, now: nat) {
    exists i :: 0 <= i < |recent| && recent[i].digest == digest && !Expired(recent[i], now)
  }

  lemma RetainKeeps(accepted: seq<Seen>, recent: seq<Seen>, dropped: nat, clock: nat, now: nat, digest: string)
    returns (dropped': nat)
    requires ByTime(accepted, clock) && RecentOk(accepted, recent, dropped, clock) && clock <= now
    ensures ByTime(accepted, now) && RecentOk(accepted, Unexpired(recent, now), dropped', now)
    ensures |Unexpired(recent, now)| <= |recent|
    ensures Names(Unexpired(recent, now), digest) <==> SeenLately(recent, digest, now)
  {
    forall i, j | 0 <= i < j < |recent| ensures recent[i].at <= recent[j].at {
      assert recent[i] == accepted[dropped + i] && recent[j] == accepted[dropped + j];
    }
    var k := UnexpiredIsATail(recent, now);
    dropped' := dropped + k;
    assert recent[k..] == accepted[dropped'..];
    forall i | 0 <= i < dropped' ensures Expired(accepted[i], now) || i + MAX_RECENT < |accepted| {
      if i >= dropped { assert accepted[i] == recent[i - dropped]; }
    }
    assert forall i | k <= i < |recent| :: recent[i] == recent[k..][i - k];
  }

  // One of the last MAX_RECENT accepted requests had the digest and is within the window.
  ghost predicate AcceptedLately(accepted: seq<Seen>, digest: string, now: nat) {
    exists i :: 0 <= i < |accepted| <= i + 32 && accepted[i].digest == digest && now <= accepted[i].at + 5000
  }

  // What `recent` is asked is a question about all accepted requests.
  lemma SeenIffAcceptedLately(accepted: seq<Seen>, recent: seq<Seen>, dropped: nat, clock: nat, now: nat,
                              digest: string)
    requires ByTime(accepted, clock) && RecentOk(accepted, recent, dropped, clock) && clock <= now
    requires |recent| <= MAX_RECENT
    ensures SeenLately(recent, digest, now) <==> AcceptedLately(accepted, digest, now)
  {
    if SeenLately(recent, digest, now) {
      var i :| 0 <= i < |recent| && recent[i].digest == digest && !Expired(recent[i], now);
      assert accepted[dropped + i] == recent[i];
    }
    if AcceptedLately(accepted, digest, now) {
      var i :| 0 <= i < |accepted| <= i + 32 && accepted[i].digest == digest && now <= accepted[i].at + 5000;
      assert clock <= accepted[i].at + 5000 && !Expired(accepted[i], clock);
      assert recent[i - dropped] == accepted[i] && !Expired(accepted[i], now);
    }
  }

  lemma AcceptKeeps(accepted: seq<Seen>, recent: seq<Seen>, dropped: nat, now: nat, digest: string)
    requires ByTime(accepted, now) && RecentOk(accepted, recent, dropped, now) && NoEarlyRepeat(accepted)
    requires !Names(recent, digest)
    ensures ByTime(accepted + [Seen(digest, now)], now)
    ensures RecentOk(accepted + [Seen(digest, now)], recent + [Seen(digest, now)], dropped, now)
    ensures NoEarlyRepeat(accepted + [Seen(digest, now)])
  {
    var more := accepted + [Seen(digest, now)];
    var n := |accepted|;
    forall i | dropped <= i < n ensures accepted[i].digest != digest {
      assert accepted[i] == recent[i - dropped];
    }
    forall i | 0 <= i < n && more[i].digest == digest ensures Expired(more[i], now) || n - i - 1 >= MAX_RECENT {
    }
    assert more[dropped..] == recent + [Seen(digest, now)];
  }

  // Dropping the front of an overfull recent list.
  lemma PopKeeps(accepted: seq<Seen>, recent: seq<Seen>, dropped: nat, clock: nat)
    requires RecentOk(accepted, recent, dropped, clock) && |recent| > MAX_RECENT
    ensures RecentOk(accepted, recent[1..], dropped + 1, clock)
  {
    assert recent[1..] == accepted[dropped + 1..];
  }

  ghost predicate EntriesOk(entries: seq<Preview>, nextId: nat) {
    && |entries| <= MAX_PENDING
    && (forall i | 0 <= i < |entries| :: entries[i].requestId < nextId)
    && (forall i, j | 0 <= i < j < |entries| :: entries[i].requestId != entries[j].requestId)
  }

  lemma EntriesGrow(entries: seq<Preview>, nextId: nat, preview: Preview)
    requires EntriesOk(entries, nextId) && |entries| < MAX_PENDING && preview.requestId == nextId
    ensures EntriesOk(entries + [preview], nextId + 1)
  {
  }

  ghost predicate HasId(entries: seq<Preview>, id: nat) {
    exists i :: 0 <= i < |entries| && entries[i].requestId == id
  }

  class ExternalEntryState {
    var entries: seq<Preview>
    var recent: seq<Seen>
    var nextId: nat

    // Every accepted request so far with its time, how many of them `recent` has
    // dropped, and the time of the last call.
    ghost var accepted: seq<Seen>
    ghost var dropped: nat
    ghost var clock: nat

    constructor ()
      ensures Valid() && entries == [] && accepted == []
    {
      entries, recent, nextId := [], [], 0;
      accepted, dropped, clock := [], 0, 0;
    }

    ghost predicate Valid()
      reads this
    {
      && EntriesOk(entries, nextId)
      && |recent| <= MAX_RECENT
      && ByTime(accepted, clock)
      && RecentOk(accepted, recent, dropped, clock)
      && NoEarlyRepeat(accepted)
    }

    // The loop at the end of `queue`.
    static method PopFront(pushed: seq<Seen>, ghost accepted: seq<Seen>, ghost dropped: nat, ghost now: nat)
      returns (kept: seq<Seen>, ghost gone: nat)
      requires RecentOk(accepted, pushed, dropped, now)
      ensures |kept| <= MAX_RECENT && RecentOk(accepted, kept, gone, now)
    {
      kept, gone := pushed, dropped;
      while |kept| > MAX_RECENT
        invariant RecentOk(accepted, kept, gone, now)
      {
        PopKeeps(accepted, kept, gone, now);
        kept, gone := kept[1..], gone + 1;
      }
    }

    method Queue(parsed: Request, now: nat) returns (r: QueueResult)
      requires Valid() && clock <= now
      modifies this
      ensures Valid() && clock == now
      ensures r.Duplicate? <==> AcceptedLately(old(accepted), parsed.digest, now)
      ensures r.Full? <==> !AcceptedLately(old(accepted), parsed.digest, now) && |old(entries)| == 16
      ensures !r.Accepted? ==> entries == old(entries) && accepted == old(accepted) && nextId == old(nextId)
      ensures r.Accepted? ==>
        && r.preview == Preview(old(nextId), parsed.bundleRoot)
        && entries == old(entries) + [r.preview] && nextId == old(nextId) + 1
        && accepted == old(accepted) + [Seen(parsed.digest, now)]
    {
      var kept := Unexpired(recent, now);
      ghost var gone := RetainKeeps(accepted, recent, dropped, clock, now, parsed.digest);
      SeenIffAcceptedLately(accepted, recent, dropped, clock, now, parsed.digest);
      recent, dropped, clock := kept, gone, now;
      if Names(kept, parsed.digest) { return Duplicate; }
      if |entries| >= MAX_PENDING { return Full; }
      var preview := Preview(nextId, parsed.bundleRoot);
      ghost var more := accepted + [Seen(parsed.digest, now)];
      AcceptKeeps(accepted, kept, gone, now, parsed.digest);
      kept := kept + [Seen(parsed.digest, now)];
      kept, gone := PopFront(kept, more, gone, now);
      EntriesGrow(entries, nextId, preview);
      entries, nextId := entries + [preview], nextId + 1;
      recent, accepted, dropped := kept, more, gone;
      r := Accepted(preview);
    }

    method Get(requestId: nat) returns (r: Option<Preview>)
      ensures r.Some? <==> HasId(entries, requestId)
      ensures r.Some? ==> r.value in entries && r.value.requestId == requestId
    {
      FindHolds(entries, requestId);
      r := Find(entries, requestId);
    }

    // Removing takes out the one entry with the id, and nothing else.
    method Remove(requestId: nat) returns (removed: bool)
      requires Valid()
      modifies this`entries
      ensures Valid()
      ensures removed <==> HasId(old(entries), requestId)
      ensures Keeps(old(entries), entries, OtherThan(requestId)) && !HasId(entries, requestId)
    {
      var before := |entries|;
      WithoutKeeps(entries, requestId);
      WithoutHolds(entries, requestId);
      entries := Without(entries, requestId);
      removed := |entries| != before;
    }
  }

  lemma {:induction false} FindHolds(entries: seq<Preview>, id: nat)
    ensures Find(entries, id).Some? <==> exists i :: 0 <= i < |entries| && entries[i].requestId == id
    ensures Find(entries, id).Some? ==> Find(entries, id).value in entries && Find(entries, id).value.requestId == id
  {
    if entries != [] {
      FindHolds(entries[1..], id);
      if exists i :: 0 <= i < |entries| && entries[i].requestId == id {
        var i :| 0 <= i < |entries| && entries[i].requestId == id;
        assert i > 0 ==> entries[1..][i - 1].requestId == id;
      }
    }
  }

  ghost function OtherThan(id: nat): Preview -> bool {
    (e: Preview) => e.requestId != id
  }

  lemma WithoutStep(front: seq<Preview>, kept: seq<Preview>, last: Preview, id: nat)
    requires Keeps(front, kept, OtherThan(id))
    ensures Keeps(front + [last], kept + if last.requestId == id then [] else [last], OtherThan(id))
  {
    KeepsOneMoreBehind(front, kept, last, OtherThan(id));
    assert kept + [] == kept;
  }

  lemma {:induction false} WithoutKeeps(entries: seq<Preview>, id: nat)
    ensures Keeps(entries, Without(entries, id), OtherThan(id))
  {
    if entries == [] {
      KeepsNothing(OtherThan(id));
    } else {
      var (front, last) := (entries[..|entries| - 1], entries[|entries| - 1]);
      WithoutKeeps(front, id);
      WithoutStep(front, Without(front, id), last, id);
      assert entries == front + [last];
    }
  }

  // Removal keeps the other entries in order; with distinct ids at most one goes.
  lemma {:induction false} WithoutHolds(entries: seq<Preview>, id: nat)
    requires forall i, j | 0 <= i < j < |entries| :: entries[i].requestId != entries[j].requestId
    ensures var r := Without(entries, id);
      && |r| == |entries| - (if HasId(entries, id) then 1 else 0)
      && !HasId(r, id)
      && (forall i | 0 <= i < |r| :: r[i] in entries)
      && (forall i, j | 0 <= i < j < |r| :: r[i].requestId != r[j].requestId)
  {
    if entries != [] {
      var n := |entries| - 1;
      var front := entries[..n];
      WithoutHolds(front, id);
      var r := Without(front, id);
      assert HasId(front, id) ==> entries[n].requestId != id by {
        if HasId(front, id) {
          var i :| 0 <= i < |front| && front[i].requestId == id;
          assert entries[i].requestId == id;
        }
      }
      forall i | 0 <= i < |r| ensures r[i].requestId != entries[n].requestId {
        var k :| 0 <= k < |front| && front[k] == r[i];
        assert entries[k] == r[i];
      }
      assert HasId(entries, id) <==> HasId(front, id) || entries[n].requestId == id by {
        if HasId(front, id) {
          var i :| 0 <= i < |front| && front[i].requestId == id;
          assert entries[i].requestId == id;
        }
        if HasId(entries, id) {
          var i :| 0 <= i < |entries| && entries[i].requestId == id;
          assert i < n ==> front[i].requestId == id;
        }
      }
    }
  }
}
