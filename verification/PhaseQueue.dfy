/** A queue in memory with one producer, a device, and one consumer, the driver. The producer writes
    entry `n` into slot `n % 256` with a bit that toggles every lap; the consumer tells new entries
    from old ones by that bit alone. The xHCI event ring (section 4.9.4 of the xHCI specification)
    and the NVMe completion queue (section 4.6 of NVM Express 1.4) are both of this kind. */
module PhaseQueue {
  import opened Words
  import opened Laps

  /** The slots, and the history: what the device has written and what the driver has accepted. */
  datatype Queue<T> = Queue(slots: seq<T>, produced: seq<T>, accepted: seq<T>)

  /** What the driver's index holds, a uint16_t. */
  function Index<T>(q: Queue<T>): nat { |q.accepted| % WORD16 }

  /** The driver's test: does the bit of the slot at `index` say it is new? */
  predicate Accepts<T>(slots: seq<T>, phase: T -> bool, index: nat)
    requires |slots| == SLOTS
  {
    phase(slots[Slot(index)]) == EvenLap(index)
  }

  function Consume<T>(q: Queue<T>, phase: T -> bool): (r: Queue<T>)
    requires |q.slots| == SLOTS
  {
    if Accepts(q.slots, phase, Index(q)) then q.(accepted := q.accepted + [q.slots[Slot(Index(q))]]) else q
  }

  /** The device may write when some slot has been consumed, and sets the bit for the lap it is in. */
  predicate MayProduce<T>(q: Queue<T>, phase: T -> bool, t: T) {
    |q.produced| < |q.accepted| + SLOTS && phase(t) == EvenLap(|q.produced|)
  }

  function Produce<T>(q: Queue<T>, t: T): Queue<T>
    requires |q.slots| == SLOTS
  {
    q.(slots := q.slots[Slot(|q.produced|) := t], produced := q.produced + [t])
  }

  /** At the start no slot carries the first lap's bit. */
  ghost predicate Blank<T>(q: Queue<T>, phase: T -> bool) {
    |q.slots| == SLOTS && q.produced == [] && q.accepted == [] && forall i :: 0 <= i < SLOTS ==> !phase(q.slots[i])
  }

  ghost predicate Written<T>(q: Queue<T>, n: nat)
    requires n < |q.produced| && |q.slots| == SLOTS
  {
    q.slots[Slot(n)] == q.produced[n]
  }

  ghost predicate Inv<T>(q: Queue<T>, phase: T -> bool) {
    && |q.slots| == SLOTS
    && q.accepted <= q.produced && |q.produced| <= |q.accepted| + SLOTS
    && (forall n: nat :: n < |q.produced| ==> phase(q.produced[n]) == EvenLap(n))
    && (forall n: nat :: |q.produced| <= n + SLOTS && n < |q.produced| ==> Written(q, n))
    && (forall i: nat :: |q.produced| <= i < SLOTS ==> !phase(q.slots[i]))
  }

  lemma BlankInv<T>(q: Queue<T>, phase: T -> bool)
    requires Blank(q, phase)
    ensures Inv(q, phase)
  {
  }

  lemma ProduceKeeps<T>(q: Queue<T>, phase: T -> bool, t: T)
    requires Inv(q, phase) && MayProduce(q, phase, t)
    ensures Inv(Produce(q, t), phase)
  {
    hide Slot, EvenLap;
    var p, q' := |q.produced|, Produce(q, t);
    forall n: nat | |q'.produced| <= n + SLOTS && n < |q'.produced| ensures Written(q', n) {
      if n < p {
        SlotsDiffer(n, p);
        assert Written(q, n);
      }
    }
    forall i: nat | |q'.produced| <= i < SLOTS ensures !phase(q'.slots[i]) {
      FirstLap(p);
    }
  }

  /** The bit is exact: the slot at the consumer's index is accepted if and only if something has been
      produced that was not accepted yet, and then it holds the next entry. */
  lemma AcceptsExactly<T>(q: Queue<T>, phase: T -> bool)
    requires Inv(q, phase)
    ensures Accepts(q.slots, phase, Index(q)) <==> |q.accepted| < |q.produced|
    ensures |q.accepted| < |q.produced| ==> q.slots[Slot(Index(q))] == q.produced[|q.accepted|]
  {
    hide Slot, EvenLap;
    var n := |q.accepted|;
    IndexWraps(n, WORD16);
    if n < |q.produced| {
      assert Written(q, n);
    } else if n >= SLOTS {
      LapsAlternate(n - SLOTS);
      assert Written(q, n - SLOTS);
    } else {
      FirstLap(n);
    }
  }

  lemma ConsumeKeeps<T>(q: Queue<T>, phase: T -> bool)
    requires Inv(q, phase)
    ensures Inv(Consume(q, phase), phase)
  {
    hide Slot, EvenLap;
    AcceptsExactly(q, phase);
    forall n: nat | |q.produced| <= n + SLOTS && n < |q.produced| ensures Written(Consume(q, phase), n) {
      assert Written(q, n);
    }
  }

  ghost predicate Step<T(!new)>(q: Queue<T>, phase: T -> bool, q': Queue<T>) {
    && |q.slots| == SLOTS
    && (q' == Consume(q, phase) || exists t :: MayProduce(q, phase, t) && q' == Produce(q, t))
  }

  ghost predicate Run<T(!new)>(qs: seq<Queue<T>>, phase: T -> bool) {
    && qs != [] && Blank(qs[0], phase)
    && forall k, l :: 0 <= k < |qs| && l == k + 1 && l < |qs| ==> Step(qs[k], phase, qs[l])
  }

  /** For every interleaving, across any number of laps and wraps of the index: the entries accepted are
      a prefix of those produced, and an attempt that accepts nothing has accepted everything. */
  lemma {:induction false} DeliversInOrder<T(!new)>(qs: seq<Queue<T>>, phase: T -> bool)
    requires Run(qs, phase)
    ensures forall k :: 0 <= k < |qs| ==> Inv(qs[k], phase)
    ensures forall k :: 0 <= k < |qs| ==> qs[k].accepted <= qs[k].produced
    ensures forall k :: 0 <= k < |qs| && |qs[k].slots| == SLOTS && Consume(qs[k], phase) == qs[k] ==>
            qs[k].accepted == qs[k].produced
    decreases |qs|
  {
    BlankInv(qs[0], phase);
    if |qs| > 1 {
      var n := |qs| - 2;
      DeliversInOrder(qs[..n + 1], phase);
      assert qs[n] == qs[..n + 1][n] && Step(qs[n], phase, qs[n + 1]);
      if qs[n + 1] == Consume(qs[n], phase) {
        ConsumeKeeps(qs[n], phase);
      } else {
        var t :| MayProduce(qs[n], phase, t) && qs[n + 1] == Produce(qs[n], t);
        ProduceKeeps(qs[n], phase, t);
      }
      forall k | 0 <= k < |qs| ensures Inv(qs[k], phase) {
        if k <= n { assert qs[k] == qs[..n + 1][k]; }
      }
    }
    forall k | 0 <= k < |qs| && |qs[k].slots| == SLOTS && Consume(qs[k], phase) == qs[k]
      ensures qs[k].accepted == qs[k].produced
    {
      AcceptsExactly(qs[k], phase);
    }
  }
}
