/**
 * `format_file_size`: the unit a byte count is shown in, and the number shown
 * with it. The `:.2f` rendering is not modelled; the value is exact.
 */
module SizeFormat {

  datatype Unit = B | KB | MB | GB

  /** The units in the order the loop tries them. */
  const Units: seq<Unit> := [B, KB, MB, GB]

  function Power1024(k: nat): (r: nat)
    ensures r >= 1
  {
    if k == 0 then 1 else 1024 * Power1024(k - 1)
  }

  /** Position of a unit in `Units`: how many times the size was divided by 1024. */
  function Exponent(u: Unit): nat {
    match u
    case B => 0
    case KB => 1
    case MB => 2
    case GB => 3
  }

  /**
   * The loop of `format_file_size`: divide by 1024 until the value is below
   * 1024 or the unit is GB.
   */
  method FormatFileSize(sizeBytes: int) returns (value: real, unit: Unit)
    ensures unit == B <==> sizeBytes < 1024
    ensures unit == KB <==> 1024 <= sizeBytes < 1024 * 1024
    ensures unit == MB <==> 1024 * 1024 <= sizeBytes < 1024 * 1024 * 1024
    ensures unit == GB <==> 1024 * 1024 * 1024 <= sizeBytes
    ensures value == sizeBytes as real / Power1024(Exponent(unit)) as real
  {
    var k := 0;
    value := sizeBytes as real;
    while !(value < 1024.0 || Units[k] == GB)
      invariant 0 <= k <= 3
      invariant value == sizeBytes as real / Power1024(k) as real
      invariant Power1024(k) <= sizeBytes || k == 0
      decreases 3 - k
    {
      DividedBelow(sizeBytes, k);
      value := value / 1024.0;
      k := k + 1;
    }
    unit := Units[k];
    DividedBelow(sizeBytes, k);
    assert Power1024(1) == 1024 && Power1024(2) == 1024 * 1024 && Power1024(3) == 1024 * 1024 * 1024;
  }

  /** Comparing the divided value with 1024 is the same as comparing the size with the next power. */
  lemma DividedBelow(sizeBytes: int, k: nat)
    ensures sizeBytes as real / Power1024(k) as real < 1024.0 <==> sizeBytes < Power1024(k + 1)
    ensures (sizeBytes as real / Power1024(k) as real) / 1024.0 == sizeBytes as real / Power1024(k + 1) as real
  {
    var p := Power1024(k) as real;
    assert Power1024(k + 1) as real == 1024.0 * p;
    QuotientBelow(sizeBytes as real, p, 1024.0);
    DivideTwice(sizeBytes as real, p, 1024.0);
  }

  lemma QuotientBelow(x: real, p: real, c: real)
    requires p > 0.0
    ensures x / p < c <==> x < c * p
  {
    var q := x / p;
    assert x == q * p;
    assert c * p - x == (c - q) * p;
  }

  lemma DivideTwice(x: real, p: real, c: real)
    requires p > 0.0 && c > 0.0
    ensures (x / p) / c == x / (c * p)
  {
    var q := x / p;
    var r := q / c;
    assert x == q * p;
    assert q == r * c;
    assert x == r * (c * p);
  }
}
