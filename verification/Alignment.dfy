/** Rounding up to an alignment: pw_kvs/alignment.h. */
module Alignment {
  import opened Division

  /** The least multiple of the alignment that is no less than the value. */
  function AlignUp(value: nat, alignment: nat): (r: nat)
    requires 0 < alignment
    ensures value <= r < value + alignment
  {
    if value == 0 then 0
    else if value <= alignment then alignment
    else alignment + AlignUp(value - alignment, alignment)
  }

  /** The source computes it with one truncating division. */
  lemma {:induction false} AlignUpByDivision(value: nat, alignment: nat)
    requires 0 < alignment
    ensures AlignUp(value, alignment) == (value + alignment - 1) / alignment * alignment
  {
    var q := AlignedUnits(value, alignment);
    DivideBetween(value + alignment - 1, alignment, q);
  }

  lemma {:induction false} AlignedUnits(value: nat, alignment: nat) returns (q: nat)
    requires 0 < alignment
    ensures AlignUp(value, alignment) == q * alignment
  {
    if value == 0 {
      q := 0;
    } else if value <= alignment {
      q := 1;
    } else {
      var p := AlignedUnits(value - alignment, alignment);
      q := p + 1;
    }
  }

  lemma {:induction false} AlignUpIsMultiple(value: nat, alignment: nat)
    requires 0 < alignment
    ensures IsMultiple(AlignUp(value, alignment), alignment)
  {
    MultipleOfItself(alignment);
    if alignment < value {
      AlignUpIsMultiple(value - alignment, alignment);
      SumOfMultiples(alignment, AlignUp(value - alignment, alignment), alignment);
    }
  }

  /** No smaller multiple would do. */
  lemma {:induction false} AlignUpIsLeast(value: nat, alignment: nat, multiple: nat)
    requires 0 < alignment && IsMultiple(multiple, alignment) && value <= multiple
    ensures AlignUp(value, alignment) <= multiple
  {
    if 0 < value {
      MultipleOfItself(alignment);
      NextMultiple(0, multiple, alignment);
      if alignment < value {
        ModStep(multiple, alignment);
        AlignUpIsLeast(value - alignment, alignment, multiple - alignment);
      }
    }
  }

  lemma {:induction false} AlignUpBehind(multiple: nat, value: nat, alignment: nat)
    requires 0 < alignment && IsMultiple(multiple, alignment)
    ensures AlignUp(multiple + value, alignment) == multiple + AlignUp(value, alignment)
  {
    if 0 < multiple {
      MultipleOfItself(alignment);
      NextMultiple(0, multiple, alignment);
      ModStep(multiple, alignment);
      AlignUpBehind(multiple - alignment, value, alignment);
    }
  }

  lemma {:induction false} AlignUpUnits(value: nat, alignment: nat)
    requires 0 < alignment && alignment % 16 == 0
    ensures AlignUp(value, alignment) % 16 == 0
  {
    if alignment < value {
      AlignUpUnits(value - alignment, alignment);
    }
  }

  lemma {:induction false} AlignUpAligned(units: nat)
    ensures AlignUp(16 * units, 16) == 16 * units
  {
    if 1 < units {
      AlignUpAligned(units - 1);
    }
  }

  lemma {:induction false} AlignUpMonotone(a: nat, b: nat, alignment: nat)
    requires 0 < alignment && a <= b
    ensures AlignUp(a, alignment) <= AlignUp(b, alignment)
  {
    if alignment < a {
      AlignUpMonotone(a - alignment, b - alignment, alignment);
    }
  }
}
