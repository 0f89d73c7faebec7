/** Pinned snapshots: internal/base/watermark.go. */
module Watermarks {
  import opened InternalKeys

  /** The least pinned sequence number, or SEQ_NUM_MAX when nothing is pinned. */
  ghost predicate IsFloor(pins: multiset<SeqNum>, floor: SeqNum) {
    && (forall p | p in pins :: floor <= p)
    && (floor in pins || (pins == multiset{} && floor == SEQ_NUM_MAX))
  }

  ghost function Floor(pins: multiset<SeqNum>): (floor: SeqNum)
    ensures IsFloor(pins, floor)
  {
    FloorExists(pins);
    var f: SeqNum :| IsFloor(pins, f);
    f
  }

  lemma FloorExists(pins: multiset<SeqNum>)
    ensures exists f: SeqNum :: IsFloor(pins, f)
  {
    if pins == multiset{} {
      assert IsFloor(pins, SEQ_NUM_MAX);
    } else {
      var p :| p in pins;
      var rest := pins[p := 0];
      assert |rest| < |pins| by { assert pins == rest + multiset{}[p := pins[p]]; }
      FloorExists(rest);
      var f: SeqNum :| IsFloor(rest, f);
      assert IsFloor(pins, if f < p && f in rest then f else p);
    }
  }

  lemma FloorIsUnique(pins: multiset<SeqNum>, f: SeqNum, g: SeqNum)
    requires IsFloor(pins, f) && IsFloor(pins, g)
    ensures f == g
  {
  }

  class Watermark {
    var active: map<SeqNum, nat>

    ghost predicate Valid()
      reads this
    {
      forall s | s in active :: active[s] > 0
    }

    /** Pins are counted: the map holds the multiplicities of this multiset. */
    ghost predicate Holds(pins: multiset<SeqNum>)
      reads this
    {
      Valid() && forall s: SeqNum :: pins[s] == if s in active then active[s] else 0
    }

    constructor ()
      ensures Valid() && Holds(multiset{})
    {
      active := map[];
    }

    method Begin(s: SeqNum, ghost pins: multiset<SeqNum>)
      requires Holds(pins)
      modifies this
      ensures Holds(pins + multiset{s})
    {
      active := active[s := (if s in active then active[s] else 0) + 1];
    }

    /** Releasing a sequence number that is not pinned changes nothing. */
    method Done(s: SeqNum, ghost pins: multiset<SeqNum>)
      requires Holds(pins)
      modifies this
      ensures Holds(pins - multiset{s})
    {
      var n := if s in active then active[s] else 0;
      if n <= 1 {
        active := active - {s};
      } else {
        active := active[s := n - 1];
      }
    }

    method GetFloor(ghost pins: multiset<SeqNum>) returns (floor: SeqNum)
      requires Holds(pins)
      ensures floor == Floor(pins)
    {
      floor := SEQ_NUM_MAX;
      var left := active.Keys;
      while left != {}
        invariant left <= active.Keys
        invariant forall p | p in active.Keys && p !in left :: floor <= p
        invariant floor == SEQ_NUM_MAX || (floor in active.Keys && floor !in left)
        decreases left
      {
        var s :| s in left;
        left := left - {s};
        if s < floor {
          floor := s;
        }
      }
      assert forall s: SeqNum :: s in pins <==> s in active.Keys;
      FloorIsUnique(pins, floor, Floor(pins));
    }
  }
}
