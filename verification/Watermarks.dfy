/** Watermarks: how many buckets an allocation must leave free. */
module Watermarks {
  import opened Numbers

  datatype Watermark = Stripe | Normal | CopyGC | Btree | BtreeCopyGC | Reclaim | InteriorUpdate {
    function Level(): nat {
      match this
      case Stripe => 0
      case Normal => 1
      case CopyGC => 2
      case Btree => 3
      case BtreeCopyGC => 4
      case Reclaim => 5
      case InteriorUpdate => 6
    }
  }

  /** What a watermark adds to the reserve of those above it. */
  function Share(level: nat, nb: nat): nat {
    if level <= 1 then Max(nb / 64, 1) else if level <= 3 then Max(nb / 1024, 32) else 0
  }

  /** The reserve of a level: its own share and those of all levels above it. */
  function Stacked(level: nat, nb: nat): nat
    decreases 7 - level
  {
    if level >= 7 then 0 else Share(level, nb) + Stacked(level + 1, nb)
  }

  function Reserved(w: Watermark, total: nat): nat {
    Min(Stacked(w.Level(), Max(total, 4)), if total > 0 then total - 1 else 0)
  }

  method ReservedBuckets(w: Watermark, total: nat) returns (r: nat)
    ensures r == Reserved(w, total)
  {
    var nb := Max(total, 4);
    var btreeReserve := Max(nb / 1024, 32);
    r := 0;
    if w.Level() <= Stripe.Level() { r := r + Max(nb / 64, 1); }
    if w.Level() <= Normal.Level() { r := r + Max(nb / 64, 1); }
    if w.Level() <= CopyGC.Level() { r := r + btreeReserve; }
    if w.Level() <= Btree.Level() { r := r + btreeReserve; }
    StackedValues(nb);
    r := Min(r, if total > 0 then total - 1 else 0);
  }

  lemma StackedValues(nb: nat)
    ensures Stacked(4, nb) == Stacked(5, nb) == Stacked(6, nb) == Stacked(7, nb) == 0
    ensures Stacked(3, nb) == Max(nb / 1024, 32) && Stacked(2, nb) == 2 * Max(nb / 1024, 32)
    ensures Stacked(1, nb) == Max(nb / 64, 1) + 2 * Max(nb / 1024, 32)
    ensures Stacked(0, nb) == 2 * Max(nb / 64, 1) + 2 * Max(nb / 1024, 32)
  {
    assert Stacked(7, nb) == 0;
    assert Stacked(6, nb) == 0;
    assert Stacked(5, nb) == 0;
    assert Stacked(4, nb) == 0;
    assert Stacked(3, nb) == Max(nb / 1024, 32);
    assert Stacked(2, nb) == 2 * Max(nb / 1024, 32);
    assert Stacked(1, nb) == Max(nb / 64, 1) + 2 * Max(nb / 1024, 32);
  }

  /** The reserve never grows as the watermark rises, and leaves at least one bucket. */
  lemma {:induction false} ReserveShrinks(low: Watermark, high: Watermark, total: nat)
    requires low.Level() <= high.Level()
    ensures Reserved(high, total) <= Reserved(low, total)
    ensures total > 0 ==> Reserved(low, total) < total
  {
    StackedShrinks(low.Level(), high.Level(), Max(total, 4));
  }

  lemma {:induction false} StackedShrinks(i: nat, j: nat, nb: nat)
    requires i <= j <= 7
    ensures Stacked(j, nb) <= Stacked(i, nb)
    decreases j - i
  {
    if i < j { StackedShrinks(i + 1, j, nb); }
  }
}
