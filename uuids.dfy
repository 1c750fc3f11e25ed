/**
 * UUIDs, abstracted to their position in time order.
 *
 * Time-based UUIDs are compared by the time they were issued, so a UUID is
 * modelled as a natural number: a later UUID is a larger number. The
 * canonical string form of a UUID is modelled as its lower-case hexadecimal
 * numeral; what the event store relies on is only that this form is never
 * empty and that distinct UUIDs have distinct string forms.
 */
module Uuids {

  type Uuid = nat

  /** NULL_UUID: the sentinel UUID that stands for the system tenant. */
  const NullUuid: Uuid := 0

  /** The lower-case hexadecimal digit of d. */
  function HexDigit(d: nat): (c: char)
    requires d < 16
    ensures d < 10 ==> '0' <= c <= '9'
    ensures 10 <= d ==> 'a' <= c <= 'f'
  {
    if d < 10 then (d + 48) as char else (d + 87) as char
  }

  /** The string form of a UUID. */
  function ToString(u: Uuid): (s: string)
    ensures |s| >= 1
    ensures |s| == 1 <==> u < 16
  {
    if u < 16 then [HexDigit(u)] else ToString(u / 16) + [HexDigit(u % 16)]
  }

  /** Distinct UUIDs have distinct string forms. */
  lemma {:induction false} ToStringInjective(a: Uuid, b: Uuid)
    requires ToString(a) == ToString(b)
    ensures a == b
  {
    if a < 16 {
      assert b < 16;
      assert HexDigit(a) == ToString(a)[0] == ToString(b)[0] == HexDigit(b);
      assert HexDigit(a) as int == HexDigit(b) as int;
    } else {
      assert b >= 16;
      var sa, sb := ToString(a / 16), ToString(b / 16);
      var n := |ToString(a)| - 1;
      assert ToString(a) == sa + [HexDigit(a % 16)];
      assert ToString(b) == sb + [HexDigit(b % 16)];
      assert |sa| == n == |sb|;
      assert sa == ToString(a)[..n] == ToString(b)[..n] == sb;
      assert HexDigit(a % 16) == ToString(a)[n] == ToString(b)[n] == HexDigit(b % 16);
      assert HexDigit(a % 16) as int == HexDigit(b % 16) as int;
      ToStringInjective(a / 16, b / 16);
    }
  }
}
