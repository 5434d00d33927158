/** Masks of 16 bits. */
module Bits {
  lemma MarkedHas(el: bv16, ty: bv16, it: bv16)
    requires it == (ty & !0x40) | 0x20 && it & (el & !0xC000) == it
    ensures el & 0x20 == 0x20 && (el & 0x3FFF) & (ty & 0xFFBF) == ty & 0xFFBF
  {
  }

  lemma HasMarked(el: bv16, ty: bv16, it: bv16)
    requires it == (ty & !0x40) | 0x20
    requires el & 0x20 == 0x20 && (el & 0x3FFF) & (ty & 0xFFBF) == ty & 0xFFBF
    ensures it & (el & !0xC000) == it
  {
  }

  /** Asking for the constant form of a type is asking for the mark of a constant, and for the other bits. */
  lemma MarkedIff(el: bv16, ty: bv16)
    ensures ((ty & !0x40) | 0x20) & (el & !0xC000) == (ty & !0x40) | 0x20
       <==> el & 0x20 == 0x20 && (el & 0x3FFF) & (ty & 0xFFBF) == ty & 0xFFBF
  {
    var it := (ty & !0x40) | 0x20;
    if it & (el & !0xC000) == it {
      MarkedHas(el, ty, it);
    } else if el & 0x20 == 0x20 && (el & 0x3FFF) & (ty & 0xFFBF) == ty & 0xFFBF {
      HasMarked(el, ty, it);
    }
  }

  lemma FlagsOff(el: bv16)
    ensures (el & !0xC000) & 0x1F == el & 0x1F
    ensures (el & !0xC000) & 0x40 == el & 0x40
    ensures (el & !0xC000) & 0xFF80 == el & 0x3F80
  {
  }

  lemma UnmarkedIff(el: bv16, ty: bv16)
    ensures ty & (el & !0xC000) == ty <==> (el & 0x3FFF) & ty == ty
  {
  }
}
