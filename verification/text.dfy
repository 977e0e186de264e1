/** The decimal rendering fmt.Sprintf("%d") gives an integer, used for the
    clock clients' greeting text. */
module Text {

  function DigitChar(d: int): char
    requires 0 <= d < 10
  {
    "0123456789"[d]
  }

  /** Decimal digits of a natural number, most significant first. */
  function NatToString(n: nat): (r: string)
    ensures |r| > 0 && forall i :: 0 <= i < |r| ==> '0' <= r[i] <= '9'
    decreases n
  {
    if n < 10 then [DigitChar(n)] else NatToString(n / 10) + [DigitChar(n % 10)]
  }

  /** `%d` of an int: a minus sign for negatives, then the digits. */
  function IntToString(i: int): string {
    if i < 0 then "-" + NatToString(-i) else NatToString(i)
  }

  /** The text every clock client sends: "Hello from client <id>". */
  function Greeting(id: int): string {
    "Hello from client " + IntToString(id)
  }
}
