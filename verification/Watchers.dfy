// The watchers of the beacon node and of the relay: slots must follow each
// other without a gap, and proposed blocks are reported once each.
module Watchers {
  import opened Text

  const U64 := 0x1_0000_0000_0000_0000

  datatype Message = Head(slot: nat, parent: nat) | Timeout

  datatype Stop = SlotMismatch | ParentTooBig | TimedOut

  // uint64 arithmetic: both the successor and the difference wrap around.
  predicate SlotOk(lastSlot: nat, slot: nat) {
    lastSlot == 0 || lastSlot == slot || (lastSlot + 1) % U64 == slot
  }

  predicate ParentOk(slot: nat, parent: nat) { (slot - parent) % U64 <= 2 }

  // The slot of the message before message i.
  function LastSlot(ms: seq<Message>, i: nat): nat
    requires i <= |ms|
  {
    if i == 0 || ms[i - 1].Timeout? then 0 else ms[i - 1].slot
  }

  // Why message i stops the watcher, if it does.
  function Judge(ms: seq<Message>, i: nat): Option<Stop>
    requires i < |ms|
  {
    match ms[i]
    case Timeout => Some(TimedOut)
    case Head(slot, parent) =>
      if !SlotOk(LastSlot(ms, i), slot) then Some(SlotMismatch)
      else if !ParentOk(slot, parent) then Some(ParentTooBig)
      else None
  }

  ghost predicate Accepted(ms: seq<Message>) { forall i :: 0 <= i < |ms| ==> Judge(ms, i).None? }

  // The watcher stops at exactly the first violating message.
  method ValidateProposerPayloads(ms: seq<Message>) returns (r: Option<(nat, Stop)>)
    ensures r.None? <==> Accepted(ms)
    ensures r.Some? ==> r.value.0 < |ms| && Judge(ms, r.value.0) == Some(r.value.1)
    ensures r.Some? ==> forall i :: 0 <= i < r.value.0 ==> Judge(ms, i).None?
  {
    var lastSlot := 0;
    for i := 0 to |ms|
      invariant lastSlot == LastSlot(ms, i)
      invariant forall k :: 0 <= k < i ==> Judge(ms, k).None?
    {
      match ms[i]
      case Timeout =>
        assert Judge(ms, i) == Some(TimedOut);
        return Some((i, TimedOut));
      case Head(slot, parent) =>
        if lastSlot != 0 && lastSlot != slot && (lastSlot + 1) % U64 != slot {
          assert Judge(ms, i) == Some(SlotMismatch);
          return Some((i, SlotMismatch));
        }
        if (slot - parent) % U64 > 2 {
          assert Judge(ms, i) == Some(ParentTooBig);
          return Some((i, ParentTooBig));
        }
        lastSlot := slot;
    }
    return None;
  }

  // ----- what an accepted stream looks like -----

  // From any non-zero slot on, slots do not decrease and none is skipped.
  ghost predicate Gapless(ms: seq<Message>)
    requires forall i :: 0 <= i < |ms| ==> ms[i].Head?
  {
    forall i, j :: 0 <= i <= j < |ms| && ms[i].slot > 0 ==> Covered(ms, i, j)
  }

  ghost predicate Covered(ms: seq<Message>, i: int, j: int)
    requires 0 <= i <= j < |ms| && forall k :: 0 <= k < |ms| ==> ms[k].Head?
  {
    ms[i].slot <= ms[j].slot &&
    forall slot :: ms[i].slot <= slot <= ms[j].slot ==> Seen(ms, i, j, slot)
  }

  ghost predicate Seen(ms: seq<Message>, i: int, j: int, slot: int)
    requires 0 <= i <= j < |ms| && forall k :: 0 <= k < |ms| ==> ms[k].Head?
  {
    exists k :: i <= k <= j && ms[k].slot == slot
  }

  // The parent is at most two slots behind; the first two slots also accept a
  // difference that wraps.
  predicate ParentNear(slot: nat, parent: nat) {
    if slot >= 2 then slot - 2 <= parent <= slot
    else parent <= slot || U64 - 2 + slot <= parent
  }

  lemma ParentOkExact(slot: nat, parent: nat)
    requires slot < U64 && parent < U64
    ensures ParentOk(slot, parent) <==> ParentNear(slot, parent)
  {
    if parent <= slot {
      assert (slot - parent) % U64 == slot - parent;
    } else {
      assert (slot - parent) % U64 == slot - parent + U64;
    }
  }

  // All messages are heads with 64-bit values below the last slot there is.
  predicate BelowLimit(ms: seq<Message>) {
    forall i :: 0 <= i < |ms| ==> ms[i].Head? && ms[i].slot < U64 - 1 && ms[i].parent < U64
  }

  lemma AcceptedCovers(ms: seq<Message>, i: nat, j: nat)
    requires BelowLimit(ms) && Accepted(ms)
    requires i <= j < |ms| && ms[i].slot > 0
    ensures Covered(ms, i, j)
  {
    StayingCovers(ms, i, j);
  }

  lemma GaplessStep(ms: seq<Message>, i: nat)
    requires BelowLimit(ms) && Gapless(ms) && i < |ms|
    ensures SlotOk(LastSlot(ms, i), ms[i].slot)
  {
    if i > 0 && ms[i - 1].slot > 0 {
      var before := ms[i - 1].slot;
      assert Covered(ms, i - 1, i);
      if before + 1 <= ms[i].slot {
        assert Seen(ms, i - 1, i, before + 1);
      }
    }
  }

  // Below the limit the watcher accepts exactly the gapless streams whose
  // parents are near.
  lemma AcceptedExactly(ms: seq<Message>)
    requires BelowLimit(ms)
    ensures Accepted(ms) <==> Gapless(ms) && forall i :: 0 <= i < |ms| ==> ParentNear(ms[i].slot, ms[i].parent)
  {
    forall i | 0 <= i < |ms|
      ensures ParentOk(ms[i].slot, ms[i].parent) <==> ParentNear(ms[i].slot, ms[i].parent)
    {
      ParentOkExact(ms[i].slot, ms[i].parent);
    }
    if Accepted(ms) {
      forall i, j | 0 <= i <= j < |ms| && ms[i].slot > 0 ensures Covered(ms, i, j) { AcceptedCovers(ms, i, j); }
      forall i | 0 <= i < |ms| ensures ParentNear(ms[i].slot, ms[i].parent) { assert Judge(ms, i).None?; }
    } else if Gapless(ms) {
      forall i | 0 <= i < |ms| ensures SlotOk(LastSlot(ms, i), ms[i].slot) { GaplessStep(ms, i); }
    }
  }

  // Why a message stops the watcher, for values below the last slot: a timeout, a
  // slot that is neither the one before nor the next, or else a distant parent.
  lemma ReasonsExact(ms: seq<Message>, i: nat)
    requires i < |ms| && forall k :: 0 <= k <= i && ms[k].Head? ==> ms[k].slot < U64 - 1 && ms[k].parent < U64
    ensures Judge(ms, i) == Some(TimedOut) <==> ms[i].Timeout?
    ensures Judge(ms, i) == Some(SlotMismatch) <==>
              ms[i].Head? && i > 0 && ms[i - 1].Head? && ms[i - 1].slot != 0 &&
              ms[i].slot != ms[i - 1].slot && ms[i].slot != ms[i - 1].slot + 1
    ensures Judge(ms, i) == Some(ParentTooBig) <==>
              ms[i].Head? && !ParentNear(ms[i].slot, ms[i].parent) && Judge(ms, i) != Some(SlotMismatch)
  {
    if ms[i].Head? { ParentOkExact(ms[i].slot, ms[i].parent); }
  }

  // All messages are heads with 64-bit values.
  predicate SixtyFourBit(ms: seq<Message>) {
    forall i :: 0 <= i < |ms| ==> ms[i].Head? && ms[i].slot < U64 && ms[i].parent < U64
  }

  // The last 64-bit slot is followed by nothing but itself.
  ghost predicate StaysAtLimit(ms: seq<Message>)
    requires SixtyFourBit(ms)
  {
    forall i :: 0 <= i < |ms| - 1 && ms[i].slot == U64 - 1 ==> ms[i + 1].slot == U64 - 1
  }

  // An accepted stream has no gap exactly if it stays at the last slot once there;
  // otherwise it went on with slot 0, the only other one that is accepted then.
  lemma LimitExact(ms: seq<Message>)
    requires SixtyFourBit(ms) && Accepted(ms)
    ensures Gapless(ms) <==> StaysAtLimit(ms)
    ensures forall i :: 0 <= i < |ms| - 1 && ms[i].slot == U64 - 1 ==> ms[i + 1].slot == U64 - 1 || ms[i + 1].slot == 0
  {
    forall i | 0 <= i < |ms| - 1 && ms[i].slot == U64 - 1
      ensures ms[i + 1].slot == U64 - 1 || ms[i + 1].slot == 0
      ensures Gapless(ms) ==> ms[i + 1].slot == U64 - 1
    {
      assert Judge(ms, i + 1).None?;
      if Gapless(ms) { assert Covered(ms, i, i + 1); }
    }
    if StaysAtLimit(ms) {
      forall i, j | 0 <= i <= j < |ms| && ms[i].slot > 0 ensures Covered(ms, i, j) { StayingCovers(ms, i, j); }
    }
  }

  lemma {:induction false} StayingCovers(ms: seq<Message>, i: nat, j: nat)
    requires SixtyFourBit(ms) && Accepted(ms) && StaysAtLimit(ms)
    requires i <= j < |ms| && ms[i].slot > 0
    ensures Covered(ms, i, j)
    decreases j - i
  {
    if i == j {
      assert forall slot :: slot == ms[i].slot ==> Seen(ms, i, j, slot);
    } else {
      StayingCovers(ms, i, j - 1);
      assert Judge(ms, j).None? && LastSlot(ms, j) == ms[j - 1].slot;
      assert ms[j - 1].slot == U64 - 1 ==> ms[j - 1 + 1].slot == U64 - 1;
      assert ms[j].slot == ms[j - 1].slot || ms[j].slot == ms[j - 1].slot + 1;
      forall slot | ms[i].slot <= slot <= ms[j].slot
        ensures Seen(ms, i, j, slot)
      {
        if slot <= ms[j - 1].slot {
          assert Seen(ms, i, j - 1, slot);
        } else {
          assert ms[j].slot == slot;
        }
      }
    }
  }

  // A stream that goes on from slot 0 and from there to any other.
  lemma LimitMatters()
    ensures var ms := [Head(U64 - 1, U64 - 1), Head(0, 0), Head(7, 7)];
            Accepted(ms) && !Gapless(ms)
  {
    var ms := [Head(U64 - 1, U64 - 1), Head(0, 0), Head(7, 7)];
    assert Judge(ms, 0).None? && Judge(ms, 1).None? && Judge(ms, 2).None?;
    LimitExact(ms);
    assert ms[0 + 1].slot == 0;
  }

  // ----- the relay's delivered payloads -----

  // The slots greater than every slot before them and than last.
  function Records(slots: seq<nat>, last: nat): seq<nat> {
    if slots == [] then []
    else if slots[0] > last then [slots[0]] + Records(slots[1..], slots[0])
    else Records(slots[1..], last)
  }

  function Highest(slots: seq<nat>, last: nat): nat {
    if slots == [] then last else Highest(slots[1..], if slots[0] > last then slots[0] else last)
  }

  // All answers that arrived, in order; a failed poll is None.
  function Answers(polls: seq<Option<seq<nat>>>): seq<nat> {
    if polls == [] then []
    else Answers(polls[..|polls| - 1]) + (match polls[|polls| - 1] case None => [] case Some(vals) => vals)
  }

  lemma {:induction false} RecordsSplit(a: seq<nat>, b: seq<nat>, last: nat)
    ensures Records(a + b, last) == Records(a, last) + Records(b, Highest(a, last))
    ensures Highest(a + b, last) == Highest(b, Highest(a, last))
  {
    if a == [] {
      assert a + b == b;
    } else {
      assert (a + b)[1..] == a[1..] + b;
      RecordsSplit(a[1..], b, if a[0] > last then a[0] else last);
    }
  }

  // Every poll answers with the full list, and each new highest slot is
  // reported once.
  method WatchProposerPayloads(polls: seq<Option<seq<nat>>>) returns (reported: seq<nat>, lastSlot: nat)
    ensures reported == Records(Answers(polls), 0)
    ensures lastSlot == Highest(Answers(polls), 0)
  {
    hide Records, Highest;
    NoRecords();
    reported, lastSlot := [], 0;
    for p := 0 to |polls|
      invariant reported == Records(Answers(polls[..p]), 0)
      invariant lastSlot == Highest(Answers(polls[..p]), 0)
    {
      assert polls[..p + 1][..p] == polls[..p];
      if polls[p].None? {
        assert Answers(polls[..p]) + [] == Answers(polls[..p]);
        continue;
      }
      reported, lastSlot := ReportNew(polls[p].value, reported, lastSlot, Answers(polls[..p]));
    }
    assert polls[..|polls|] == polls;
  }

  // One answer, after those before it.
  method ReportNew(vals: seq<nat>, reported0: seq<nat>, lastSlot0: nat, ghost before: seq<nat>)
    returns (reported: seq<nat>, lastSlot: nat)
    requires reported0 == Records(before, 0) && lastSlot0 == Highest(before, 0)
    ensures reported == Records(before + vals, 0) && lastSlot == Highest(before + vals, 0)
  {
    hide Records, Highest;
    reported, lastSlot := reported0, lastSlot0;
    assert before + vals[..0] == before;
    for k := 0 to |vals|
      invariant reported == Records(before + vals[..k], 0)
      invariant lastSlot == Highest(before + vals[..k], 0)
    {
      assert before + vals[..k + 1] == (before + vals[..k]) + [vals[k]];
      RecordsSnoc(before + vals[..k], vals[k]);
      if vals[k] <= lastSlot { continue; }
      reported := reported + [vals[k]];
      lastSlot := vals[k];
    }
    assert vals[..|vals|] == vals;
  }

  lemma NoRecords()
    ensures Records([], 0) == [] && Highest([], 0) == 0
  {
  }

  lemma RecordsSnoc(slots: seq<nat>, slot: nat)
    ensures var highest := Highest(slots, 0);
            Records(slots + [slot], 0) == Records(slots, 0) + (if slot > highest then [slot] else []) &&
            Highest(slots + [slot], 0) == if slot > highest then slot else highest
  {
    RecordsSplit(slots, [slot], 0);
    assert [slot][1..] == [];
  }

  // Slot k is higher than all before it.
  predicate NewHighest(slots: seq<nat>, last: nat, k: nat)
    requires k < |slots|
  {
    slots[k] > last && forall i :: 0 <= i < k ==> slots[i] < slots[k]
  }

  // Every new highest slot is reported.
  lemma {:induction false} NewHighestReported(slots: seq<nat>, last: nat, k: nat)
    requires k < |slots| && NewHighest(slots, last, k)
    ensures slots[k] in Records(slots, last)
  {
    if k > 0 {
      var next := if slots[0] > last then slots[0] else last;
      assert slots[0] < slots[k];
      assert forall i :: 0 <= i < k - 1 ==> slots[1..][i] == slots[i + 1];
      NewHighestReported(slots[1..], next, k - 1);
    }
  }

  // Reports strictly increase, nothing above the last one was ever answered,
  // and it was answered itself.
  lemma {:induction false} RecordsMeaning(slots: seq<nat>, last: nat)
    ensures forall i, j :: 0 <= i < j < |Records(slots, last)| ==> Records(slots, last)[i] < Records(slots, last)[j]
    ensures forall r :: r in Records(slots, last) ==> r > last && r in slots
    ensures forall s :: s in slots ==> s <= Highest(slots, last)
    ensures Highest(slots, last) >= last &&
            (Highest(slots, last) == last || Highest(slots, last) in Records(slots, last))
  {
    if slots != [] {
      var rest, next := slots[1..], if slots[0] > last then slots[0] else last;
      RecordsMeaning(rest, next);
      assert slots == [slots[0]] + rest;
      var tail := Records(rest, next);
      if slots[0] > last {
        assert Records(slots, last) == [next] + tail;
        forall i, j | 0 <= i < j < |[next] + tail|
          ensures ([next] + tail)[i] < ([next] + tail)[j]
        {
          assert ([next] + tail)[j] == tail[j - 1] && tail[j - 1] in tail;
        }
      } else {
        assert Records(slots, last) == tail;
      }
    }
  }
}
