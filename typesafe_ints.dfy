/**
 * The code the int_flags! macro generates, for the instance its documentation
 * declares: the single flags PteAttr (W, R, V) over u8, and the plural
 * PteAttrs holding any u8, including bits no flag names.
 */
module TypesafeInts {

  /** The flag enum PteAttr */
  datatype PteAttr = W | R | V

  /** `attr as u8`: W = 1 << 2, R = 1 << 1, V = 1 << 0 */
  function Bit(a: PteAttr): bv8 {
    match a
    case W => 4
    case R => 2
    case V => 1
  }

  /** The plural PteAttrs(pub u8): any byte at all */
  datatype PteAttrs = PteAttrs(bits: bv8)

  /** PteAttrs::NONE */
  const NONE: PteAttrs := PteAttrs(0)

  /** PteAttrs::has */
  predicate Has(s: PteAttrs, a: PteAttr) {
    s.bits & Bit(a) != 0
  }

  /** PteAttrs::has_any */
  predicate HasAny(s: PteAttrs, t: PteAttrs) {
    s.bits & t.bits != 0
  }

  /** From<PteAttr> for PteAttrs: the set holding just that flag */
  function FromFlag(a: PteAttr): (s: PteAttrs)
    ensures forall c :: Has(s, c) <==> c == a
  {
    PteAttrs(Bit(a))
  }

  /** BitOr<PteAttr> for PteAttr */
  function Or(a: PteAttr, b: PteAttr): (s: PteAttrs)
    ensures forall c :: Has(s, c) <==> c == a || c == b
  {
    PteAttrs(Bit(a) | Bit(b))
  }

  /** BitOr<PteAttr> for PteAttrs */
  function OrFlag(s: PteAttrs, a: PteAttr): (r: PteAttrs)
    ensures forall c :: Has(r, c) <==> Has(s, c) || c == a
    ensures r.bits & !Bit(a) == s.bits & !Bit(a)
  {
    PteAttrs(s.bits | Bit(a))
  }

  /** BitOr<PteAttrs> for PteAttrs */
  function OrAll(s: PteAttrs, t: PteAttrs): (r: PteAttrs)
    ensures forall c :: Has(r, c) <==> Has(s, c) || Has(t, c)
  {
    PteAttrs(s.bits | t.bits)
  }

  /** A set shares a bit with a union iff it shares one with either side. */
  lemma OrAllHasAny(s: PteAttrs, t: PteAttrs, u: PteAttrs)
    ensures HasAny(OrAll(s, t), u) <==> HasAny(s, u) || HasAny(t, u)
  {
  }

  /** All three ways of or-ing agree: the flags are bits of one byte. */
  lemma OrForms(a: PteAttr, b: PteAttr)
    ensures Or(a, b) == OrFlag(FromFlag(a), b) == OrAll(FromFlag(a), FromFlag(b))
  {
  }

  /** NONE has no flag and shares nothing with any set. */
  lemma NoneIsEmpty(a: PteAttr, s: PteAttrs)
    ensures !Has(NONE, a) && !HasAny(NONE, s) && !HasAny(s, NONE)
  {
  }

  /** has(a) is has_any of the one-flag set. */
  lemma HasIsHasAny(s: PteAttrs, a: PteAttr)
    ensures Has(s, a) <==> HasAny(s, FromFlag(a))
  {
  }

  /** The assertions of the macro's documentation. */
  lemma DocExample()
    ensures Has(Or(R, W), R) && !Has(Or(R, W), V)
    ensures Has(FromFlag(R), R)
    ensures Has(PteAttrs(1), V)
  {
  }
}
