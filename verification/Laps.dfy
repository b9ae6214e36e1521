/** Index arithmetic shared by the 256-slot rings: a free-running index gives the slot by its low
    byte and the expected cycle or phase bit by bit 8. */
module Laps {

  const SLOTS: nat := 256

  /** `index % 256` */
  function Slot(index: nat): (r: nat)
    ensures r < SLOTS
  {
    index % 256
  }

  /** `index & 0x100` is clear. */
  predicate EvenLap(index: nat) { index / 256 % 2 == 0 }

  /** Any number of laps later the slot is the same. */
  lemma SameSlot(k: nat, r: nat)
    ensures Slot(256 * k + r) == Slot(r)
  {
  }

  lemma WholeLaps(k: nat, r: nat)
    ensures (512 * k + r) % 256 == r % 256 && (512 * k + r) / 256 == 2 * k + r / 256
  {
  }

  /** Any number of double laps later the slot and the expected bit are the same. */
  lemma DoubleLaps(k: nat, r: nat)
    ensures Slot(512 * k + r) == Slot(r) && EvenLap(512 * k + r) == EvenLap(r)
  {
    WholeLaps(k, r);
    assert (2 * k + r / 256) % 2 == r / 256 % 2;
  }

  lemma Wraps16(p: nat)
    ensures Slot(p % 0x1_0000) == Slot(p) && EvenLap(p % 0x1_0000) == EvenLap(p)
    ensures (p % 0x1_0000 + 1) % 0x1_0000 == (p + 1) % 0x1_0000
  {
    hide Slot, EvenLap;
    DoubleLaps(0x80 * (p / 0x1_0000), p % 0x1_0000);
  }

  lemma Wraps32(p: nat)
    ensures Slot(p % 0x1_0000_0000) == Slot(p) && EvenLap(p % 0x1_0000_0000) == EvenLap(p)
    ensures (p % 0x1_0000_0000 + 1) % 0x1_0000_0000 == (p + 1) % 0x1_0000_0000
  {
    hide Slot, EvenLap;
    DoubleLaps(0x80_0000 * (p / 0x1_0000_0000), p % 0x1_0000_0000);
  }

  /** An index register of 16 or 32 bits holds a whole number of double laps, so its wrap changes
      neither slot nor expected bit. */
  lemma IndexWraps(p: nat, word: nat)
    requires word == 0x1_0000 || word == 0x1_0000_0000
    ensures Slot(p % word) == Slot(p) && EvenLap(p % word) == EvenLap(p)
    ensures (p % word + 1) % word == (p + 1) % word
  {
    hide Slot, EvenLap;
    if word == 0x1_0000 { Wraps16(p); } else { Wraps32(p); }
  }

  /** Two fillings fewer than 256 apart use different slots. */
  lemma SlotsDiffer(m: nat, n: nat)
    requires m < n < m + 256
    ensures Slot(m) != Slot(n)
  {
  }

  /** A lap later the slot is the same and the expected cycle bit is the other one. */
  lemma LapsAlternate(m: nat)
    ensures Slot(m + SLOTS) == Slot(m) && EvenLap(m + SLOTS) != EvenLap(m)
  {
  }

  lemma FirstLap(n: nat)
    requires n < SLOTS
    ensures Slot(n) == n && EvenLap(n)
  {
  }

  /** One slot further: the next address, except behind the last slot, where the lap changes. */
  lemma NextSlot(n: nat)
    ensures Slot(n) != 255 ==> Slot(n + 1) == Slot(n) + 1 && EvenLap(n + 1) == EvenLap(n)
    ensures Slot(n) == 255 ==> Slot(n + 1) == 0 && EvenLap(n + 1) != EvenLap(n)
  {
  }
}
