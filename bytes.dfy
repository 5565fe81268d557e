/** Bytes and the fixed-slot layout shared by the page and disk modules. */
module Bytes {

  /** One byte of a page buffer or of the backing file (Rust's `u8`). */
  type Byte = bv8

  /** A zero-filled buffer of length `n`, as `vec![0; n]` allocates it. */
  function Zeros(n: nat): (z: seq<Byte>)
    ensures |z| == n
    ensures forall i | 0 <= i < |z| :: z[i] == 0
  {
    seq(n, _ => 0)
  }

  /** Byte `k` lies in the slot of index `i` when slots are `size` bytes wide. */
  predicate InSlot(k: nat, i: nat, size: nat)
  {
    i * size <= k < i * size + size
  }

  /** Consecutive slots abut: slot `i + 1` starts where slot `i` ends. */
  lemma {:induction false} SlotsAbut(i: nat, size: nat)
    ensures (i + 1) * size == i * size + size
  {
  }

  /** Slots of a larger index start at or after the end of slots of a smaller one. */
  lemma {:induction false} SlotsOrdered(i: nat, j: nat, size: nat)
    requires i < j
    ensures i * size + size <= j * size
  {
    SlotsAbut(i, size);
    MulMonotone(i + 1, j, size);
  }

  /** Multiplying both sides by the same natural number keeps their order. */
  lemma {:induction false} MulMonotone(a: nat, b: nat, c: nat)
    requires a <= b
    ensures a * c <= b * c
  {
    var d := b - a;
    assert b * c == a * c + d * c;
  }

  /** Two distinct slots share no byte. */
  lemma {:induction false} SlotsDisjoint(i: nat, j: nat, size: nat, k: nat)
    requires i != j
    requires InSlot(k, i, size)
    ensures !InSlot(k, j, size)
  {
    if i < j {
      SlotsOrdered(i, j, size);
    } else {
      SlotsOrdered(j, i, size);
    }
  }

  /** With a positive slot size, a slot's start determines its index. */
  lemma {:induction false} SlotStartInjective(i: nat, j: nat, size: nat)
    requires size > 0
    requires i * size == j * size
    ensures i == j
  {
    if i < j {
      SlotsOrdered(i, j, size);
    } else if j < i {
      SlotsOrdered(j, i, size);
    }
  }

  /** A slot's start is a multiple of the slot size, and dividing by the size gives back
      the slot's index. */
  lemma {:induction false} SlotStartDivision(i: nat, size: nat)
    requires size > 0
    ensures (i * size) % size == 0 && (i * size) / size == i
  {
    var q, m := (i * size) / size, (i * size) % size;
    assert i * size == q * size + m;
    if q < i {
      SlotsOrdered(q, i, size);
    } else if i < q {
      SlotsOrdered(i, q, size);
    }
  }
}
