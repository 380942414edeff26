/** Identifier generation. The sources draw identifiers from `uuidv4()` (route and page)
    and from `new mongoose.Types.ObjectId()` (schema defaults); both serve only as a
    supply of fresh, never repeated strings. The model replaces them with a counter:
    the identifier drawn at counter value `n` is `FreshId(n)`, and `SerialOf` recovers `n`. */
module Ids {
  import opened Common

  type Id = string

  predicate IsDigit(c: char) {
    '0' <= c <= '9'
  }

  predicate AllDigits(s: string) {
    forall i :: 0 <= i < |s| ==> IsDigit(s[i])
  }

  /** The decimal numeral of `n`. */
  function Decimal(n: nat): (s: string)
    ensures s != [] && AllDigits(s)
  {
    var d := ((n % 10) + '0' as int) as char;
    if n < 10 then [d] else Decimal(n / 10) + [d]
  }

  /** The number a string of decimal digits denotes. */
  function DigitsValue(s: string): nat
    requires AllDigits(s)
  {
    if s == [] then 0 else DigitsValue(s[..|s| - 1]) * 10 + (s[|s| - 1] as int - '0' as int)
  }

  lemma {:induction false} DecimalRoundTrip(n: nat)
    ensures DigitsValue(Decimal(n)) == n
  {
    if n >= 10 {
      var s := Decimal(n);
      assert s[..|s| - 1] == Decimal(n / 10);
      DecimalRoundTrip(n / 10);
    }
  }

  /** The identifier issued when the generator's counter stands at `serial`. */
  function FreshId(serial: nat): (id: Id)
    ensures id != ""
  {
    Decimal(serial)
  }

  /** The counter value at which `id` was issued, if it is a generated identifier. */
  function SerialOf(id: Id): Option<nat> {
    if id != [] && AllDigits(id) then Some(DigitsValue(id)) else None
  }

  lemma SerialOfFreshId(n: nat)
    ensures SerialOf(FreshId(n)) == Some(n)
  {
    DecimalRoundTrip(n);
  }

  /** Identifiers issued at different counter values differ. */
  lemma FreshIdInjective(m: nat, n: nat)
    ensures FreshId(m) == FreshId(n) <==> m == n
  {
    SerialOfFreshId(m);
    SerialOfFreshId(n);
  }

  /** `id` was issued while the counter stood in `[lo, hi)`. */
  predicate IssuedIn(id: Id, lo: nat, hi: nat) {
    var s := SerialOf(id);
    s.Some? && lo <= s.value < hi
  }

  lemma FreshIdIssuedIn(n: nat, lo: nat, hi: nat)
    requires lo <= n < hi
    ensures IssuedIn(FreshId(n), lo, hi)
  {
    SerialOfFreshId(n);
  }

  /** Every identifier drawn while the counter runs through `[lo, hi)` was issued in that range. */
  lemma FreshIdsInRange(lo: nat, hi: nat)
    ensures forall n: nat :: lo <= n < hi ==> IssuedIn(FreshId(n), lo, hi)
  {
    forall n: nat | lo <= n < hi ensures IssuedIn(FreshId(n), lo, hi) {
      SerialOfFreshId(n);
    }
  }

  /** The counter never issues the same identifier twice. */
  lemma FreshIdsDistinct()
    ensures forall m: nat, n: nat :: m != n ==> FreshId(m) != FreshId(n)
  {
    forall m: nat, n: nat | m != n ensures FreshId(m) != FreshId(n) {
      FreshIdInjective(m, n);
    }
  }

  /** An identifier issued while the counter ran through `[lo, hi)` is not the one
      issued at a counter value outside that range. */
  lemma IssuedElsewhereDiffers(id: Id, lo: nat, hi: nat, n: nat)
    requires IssuedIn(id, lo, hi) && !(lo <= n < hi)
    ensures id != FreshId(n)
  {
    SerialOfFreshId(n);
  }
}
