/** ByteFormatter::format (php/health.php) and the identical private formatBytes
    helpers (health.php, php/index.php): a byte count as a value with two decimals
    in B, KB, MB or GB. */
module ByteFormat {
  import opened Base
  import opened Decimal
  import opened Rounding

  const UNITS: seq<string> := ["B", "KB", "MB", "GB"]

  function Pow1024(k: nat): (p: nat)
    ensures p >= 1
  {
    if k == 0 then 1 else 1024 * Pow1024(k - 1)
  }

  /** The unit: the largest k <= 3 with 1024^k <= b, and 0 when b is 0. */
  function UnitIndex(b: nat): (k: nat)
    ensures k < |UNITS|
    ensures k > 0 ==> Pow1024(k) <= b
    ensures k < 3 ==> b < Pow1024(k + 1)
  {
    if b >= Pow1024(3) then 3 else if b >= Pow1024(2) then 2 else if b >= Pow1024(1) then 1 else 0
  }

  /** Only one unit index satisfies UnitIndex's contract. */
  lemma UnitIndexUnique(b: nat, k: nat)
    requires k < |UNITS|
    requires k > 0 ==> Pow1024(k) <= b
    requires k < 3 ==> b < Pow1024(k + 1)
    ensures k == UnitIndex(b)
  {
    assert Pow1024(1) == 1024 && Pow1024(2) == 1048576 && Pow1024(3) == 1073741824;
  }

  /** The value shown, in hundredths: b / 1024^k rounded to two places. */
  function Scaled(b: nat): (h: nat)
    ensures IsRounded(b * 100, Pow1024(UnitIndex(b)), h)
  {
    RoundDiv(b * 100, Pow1024(UnitIndex(b)))
  }

  /** Negative counts are clamped to zero. */
  function Clamp(bytes: int): nat {
    if bytes > 0 then bytes else 0
  }

  function FormatBytes(bytes: int): (s: string)
    ensures var u := UNITS[UnitIndex(Clamp(bytes))];
      |s| > |u| + 1 && s[|s| - |u| - 1..] == " " + u
  {
    var b := Clamp(bytes);
    var num := HundredthsToString(Scaled(b));
    var s := num + " " + UNITS[UnitIndex(b)];
    assert s[|s| - |UNITS[UnitIndex(b)]| - 1..] == " " + UNITS[UnitIndex(b)];
    s
  }

  function IndexOfUnit(u: string): Option<nat> {
    if u == "B" then Some(0) else if u == "KB" then Some(1)
    else if u == "MB" then Some(2) else if u == "GB" then Some(3) else None
  }

  /** Reads "<number> <unit>" back into (hundredths, unit index). */
  function ParseFormatted(s: string): Option<(nat, nat)> {
    var k := IndexOf(s, ' ');
    if k == |s| then None
    else match (ParseHundredths(s[..k]), IndexOfUnit(s[k + 1..]))
      case (Some(h), Some(u)) => Some((h, u))
      case _ => None
  }

  /** The formatted string carries the rounded value and the chosen unit exactly. */
  lemma FormatBytesRoundTrip(bytes: int)
    ensures ParseFormatted(FormatBytes(bytes)) == Some((Scaled(Clamp(bytes)), UnitIndex(Clamp(bytes))))
  {
    var b := Clamp(bytes);
    var num := HundredthsToString(Scaled(b));
    var u := UNITS[UnitIndex(b)];
    var s := FormatBytes(bytes);
    assert s == num + [' '] + u;
    IndexOfAfterPrefix(num, ' ', u);
    assert s[..|num|] == num;
    assert s[|num| + 1..] == u;
    HundredthsRoundTrip(Scaled(b));
  }

  lemma FormatBytesZero()
    ensures FormatBytes(0) == "0 B"
    ensures FormatBytes(-42) == "0 B"
  {
    assert UnitIndex(0) == 0;
    assert Scaled(0) == 0;
    assert NatToString(0) == "0";
  }

  lemma FormatBytesKilo()
    ensures FormatBytes(1536) == "1.5 KB"
  {
    assert Pow1024(1) == 1024 && Pow1024(2) == 1048576;
    assert UnitIndex(1536) == 1;
    assert Scaled(1536) == 150;
    assert NatToString(1) == "1";
    assert HundredthsToString(150) == "1.5";
  }

  lemma FormatBytesMega()
    ensures FormatBytes(268435456) == "256 MB"
  {
    assert Pow1024(2) == 1048576 && Pow1024(3) == 1073741824;
    assert UnitIndex(268435456) == 2;
    assert Scaled(268435456) == 25600;
    assert NatToString(256) == "256" by {
      assert NatToString(25) == "25" by {
        assert NatToString(2) == "2";
      }
    }
    assert HundredthsToString(25600) == "256";
  }
}
