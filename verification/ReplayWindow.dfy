/** The DTLS replay window (RFC 6347, section 4.1.2.6): a 64-bit map of the most recent record
    numbers, refined against the set of all numbers ever recorded. */
module ReplayWindow {
  import opened Words

  const WINDOW_SIZE := 64

  datatype Window = Window(bits: nat, maxSeqNum: nat)

  const EMPTY_WINDOW := Window(0, 0)

  function ShouldDiscard(w: Window, seqNum: nat): bool {
    if seqNum > w.maxSeqNum then false
    else
      var idx := w.maxSeqNum - seqNum;
      idx >= WINDOW_SIZE || And(w.bits, Pow2(idx)) != 0
  }

  function Record(w: Window, seqNum: nat): Window {
    var slid :=
      if seqNum > w.maxSeqNum then
        var shift := seqNum - w.maxSeqNum;
        Window(if shift >= WINDOW_SIZE then 0 else ShiftLeft(WINDOW_SIZE, w.bits, shift), seqNum)
      else w;
    var idx := slid.maxSeqNum - seqNum;
    if idx < WINDOW_SIZE then slid.(bits := Or(slid.bits, Pow2(idx))) else slid
  }

  /** Bit i of the map says whether `maxSeqNum - i` has been recorded. */
  ghost predicate Refines(w: Window, recorded: set<nat>) {
    && w.bits < Pow2(WINDOW_SIZE)
    && (forall s :: s in recorded ==> s <= w.maxSeqNum)
    && (forall i: nat :: i < WINDOW_SIZE ==>
          (Bit(w.bits, i) <==> i <= w.maxSeqNum && w.maxSeqNum - i in recorded))
  }

  lemma EmptyRefines()
    ensures Refines(EMPTY_WINDOW, {})
  {
    forall i: nat | i < WINDOW_SIZE
      ensures !Bit(0, i)
    {
      BitOfZero(i);
    }
  }

  lemma ShouldDiscardExact(w: Window, recorded: set<nat>, seqNum: nat)
    requires Refines(w, recorded)
    ensures ShouldDiscard(w, seqNum) <==> seqNum in recorded || seqNum + WINDOW_SIZE <= w.maxSeqNum
  {
    if seqNum <= w.maxSeqNum && w.maxSeqNum - seqNum < WINDOW_SIZE {
      TestBit(w.bits, w.maxSeqNum - seqNum);
    }
  }

  lemma SlideRefines(w: Window, recorded: set<nat>, newMax: nat)
    requires Refines(w, recorded) && newMax > w.maxSeqNum
    ensures
      var shift := newMax - w.maxSeqNum;
      Refines(Window(if shift >= WINDOW_SIZE then 0 else ShiftLeft(WINDOW_SIZE, w.bits, shift), newMax), recorded)
  {
    var shift := newMax - w.maxSeqNum;
    var bits' := if shift >= WINDOW_SIZE then 0 else ShiftLeft(WINDOW_SIZE, w.bits, shift);
    forall i: nat | i < WINDOW_SIZE
      ensures Bit(bits', i) <==> i <= newMax && newMax - i in recorded
    {
      BitOfZero(i);
      if shift < WINDOW_SIZE {
        BitOfShiftLeft(WINDOW_SIZE, w.bits, shift, i);
        if i >= shift {
          assert newMax - i == w.maxSeqNum - (i - shift);
        }
      }
    }
  }

  lemma MarkRefines(w: Window, recorded: set<nat>, seqNum: nat)
    requires Refines(w, recorded) && seqNum <= w.maxSeqNum
    ensures
      var idx := w.maxSeqNum - seqNum;
      Refines(if idx < WINDOW_SIZE then w.(bits := Or(w.bits, Pow2(idx))) else w, recorded + {seqNum})
  {
    hide Bit, Or, Pow2;
    var idx := w.maxSeqNum - seqNum;
    if idx < WINDOW_SIZE {
      Pow2Grows(idx, WINDOW_SIZE);
      OrBound(w.bits, Pow2(idx), WINDOW_SIZE);
      forall i: nat | i < WINDOW_SIZE
        ensures Bit(Or(w.bits, Pow2(idx)), i)
           <==> i <= w.maxSeqNum && w.maxSeqNum - i in recorded + {seqNum}
      {
        BitOfOr(w.bits, Pow2(idx), i);
        BitOfPow2(idx, i);
      }
    }
  }

  /** Recording slides the window if needed and adds exactly one number to the set. */
  lemma RecordRefines(w: Window, recorded: set<nat>, seqNum: nat)
    requires Refines(w, recorded)
    ensures Refines(Record(w, seqNum), recorded + {seqNum})
  {
    if seqNum > w.maxSeqNum {
      SlideRefines(w, recorded, seqNum);
      var shift := seqNum - w.maxSeqNum;
      MarkRefines(Window(if shift >= WINDOW_SIZE then 0 else ShiftLeft(WINDOW_SIZE, w.bits, shift), seqNum),
                  recorded, seqNum);
    } else {
      MarkRefines(w, recorded, seqNum);
    }
  }

  /** An arriving record: its number and whether it authenticates. */
  datatype Arrival = Arrival(seqNum: nat, authentic: bool)

  /** The numbers accepted, in order, when the arrivals are run through the window. */
  function Accepted(w: Window, arrivals: seq<Arrival>): seq<nat>
    decreases |arrivals|
  {
    if arrivals == [] then []
    else if ShouldDiscard(w, arrivals[0].seqNum) || !arrivals[0].authentic then Accepted(w, arrivals[1..])
    else [arrivals[0].seqNum] + Accepted(Record(w, arrivals[0].seqNum), arrivals[1..])
  }

  /** All numbers in a are different, and none of them is in recorded. */
  ghost predicate DistinctFrom(a: seq<nat>, recorded: set<nat>) {
    && (forall i :: 0 <= i < |a| ==> a[i] !in recorded)
    && (forall i, j :: 0 <= i < j < |a| ==> a[i] != a[j])
  }

  lemma DistinctCons(s: nat, a: seq<nat>, recorded: set<nat>)
    requires s !in recorded && DistinctFrom(a, recorded + {s})
    ensures DistinctFrom([s] + a, recorded)
  {
    forall i | 0 <= i < |a|
      ensures a[i] !in recorded && a[i] != s
    {
      assert a[i] !in recorded + {s};
    }
  }

  lemma DistinctFewer(s: nat, a: seq<nat>, recorded: set<nat>)
    requires DistinctFrom(a, recorded + {s})
    ensures DistinctFrom(a, recorded)
  {
  }

  /** No number is accepted twice over any history, nor one that was recorded before it. */
  lemma {:induction false} AcceptedAtMostOnce(w: Window, recorded: set<nat>, arrivals: seq<Arrival>)
    requires Refines(w, recorded)
    ensures DistinctFrom(Accepted(w, arrivals), recorded)
    decreases |arrivals|
  {
    if arrivals != [] {
      var s := arrivals[0].seqNum;
      if ShouldDiscard(w, s) || !arrivals[0].authentic {
        AcceptedAtMostOnce(w, recorded, arrivals[1..]);
      } else {
        ShouldDiscardExact(w, recorded, s);
        RecordRefines(w, recorded, s);
        AcceptedAtMostOnce(Record(w, s), recorded + {s}, arrivals[1..]);
        DistinctCons(s, Accepted(Record(w, s), arrivals[1..]), recorded);
      }
    }
  }

  /** The struct DTLS1_BITMAP, with the set it stands for kept as ghost state. */
  class Bitmap {
    var bits: nat
    var maxSeqNum: nat
    ghost var recorded: set<nat>

    ghost predicate Valid()
      reads this
    {
      Refines(View(), recorded)
    }

    function View(): Window
      reads this
    {
      Window(bits, maxSeqNum)
    }

    constructor ()
      ensures Valid() && recorded == {} && View() == EMPTY_WINDOW
    {
      bits, maxSeqNum, recorded := 0, 0, {};
      new;
      EmptyRefines();
    }

    method Discards(seqNum: nat) returns (discard: bool)
      requires Valid()
      ensures discard <==> seqNum in recorded || seqNum + WINDOW_SIZE <= maxSeqNum
      ensures discard <==> ShouldDiscard(View(), seqNum)
    {
      ShouldDiscardExact(View(), recorded, seqNum);
      if seqNum > maxSeqNum {
        return false;
      }
      var idx := maxSeqNum - seqNum;
      discard := idx >= WINDOW_SIZE || And(bits, Pow2(idx)) != 0;
    }

    method Add(seqNum: nat)
      requires Valid()
      modifies this
      ensures Valid() && recorded == old(recorded) + {seqNum}
      ensures View() == Record(old(View()), seqNum)
      ensures maxSeqNum == if seqNum > old(maxSeqNum) then seqNum else old(maxSeqNum)
    {
      RecordRefines(View(), recorded, seqNum);
      if seqNum > maxSeqNum {
        var shift := seqNum - maxSeqNum;
        if shift >= WINDOW_SIZE {
          bits := 0;
        } else {
          bits := ShiftLeft(WINDOW_SIZE, bits, shift);
        }
        maxSeqNum := seqNum;
      }
      var idx := maxSeqNum - seqNum;
      if idx < WINDOW_SIZE {
        bits := Or(bits, Pow2(idx));
      }
      recorded := recorded + {seqNum};
    }

    method Reset()
      modifies this
      ensures Valid() && recorded == {} && View() == EMPTY_WINDOW
    {
      bits, maxSeqNum, recorded := 0, 0, {};
      EmptyRefines();
    }
  }
}
